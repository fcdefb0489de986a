/** The decoder's cycle-tolerant topological sort (generator/decoder.py, _safe_topological_order). */
module SafeOrder {
  import opened Graphs
  import opened Kahn
  import opened Labels
  import opened Search

  /** Dependencies of x that have not been placed. */
  function Waiting(g: Graph<Label>, order: seq<Label>, x: Label): set<Label> {
    set d | d in DependenciesIn(g, x) && d !in order
  }

  function ReadySet(g: Graph<Label>, labels: set<Label>, order: seq<Label>): set<Label> {
    set x | x in labels && x !in order && Waiting(g, order, x) == {}
  }

  /** Each entry is the least label that was ready at its turn. */
  ghost predicate LeastFirst(g: Graph<Label>, labels: set<Label>, order: seq<Label>) {
    forall i :: 0 <= i < |order| ==> IsLeast(order[i], ReadySet(g, labels, order[..i]))
  }

  /** x depends, through any number of references, on a member of a cycle, or is one. */
  ghost predicate OnOrAboveCycle(g: Graph<Label>, x: Label) {
    exists c :: Reaches(g, x, c) && DependsOn(g, c, c)
  }

  ghost predicate Sorting(g: Graph<Label>, labels: set<Label>, order: seq<Label>, ready: seq<Label>,
                          inCount: map<Label, int>) {
    && Distinct(order) && (forall x :: x in order ==> x in labels)
    && Topological(g, order) && LeastFirst(g, labels, order)
    && Ascending(ready) && (forall x :: x in ready <==> x in ReadySet(g, labels, order))
    && inCount.Keys == labels && forall x :: x in labels ==> inCount[x] == |Waiting(g, order, x)|
  }

  lemma WaitingStep(g: Graph<Label>, order: seq<Label>, n: Label, x: Label)
    requires n !in order
    ensures Waiting(g, order + [n], x) == Waiting(g, order, x) - {n}
    ensures |Waiting(g, order + [n], x)| == |Waiting(g, order, x)| - (if (x, n) in g then 1 else 0)
  {
    var a, b := Waiting(g, order, x), Waiting(g, order + [n], x);
    assert b == a - {n};
    assert n in a <==> (x, n) in g;
    if n in a {
      assert |a - {n}| == |a| - 1;
    } else {
      assert a - {n} == a;
    }
  }

  /** Counts down everything that waits for n; what reaches zero joins the ready list. */
  method Release(ghost g: Graph<Label>, ghost labels: set<Label>, ghost order: seq<Label>, n: Label,
                 children: seq<Label>, rest: seq<Label>, inCount: map<Label, int>)
    returns (ready: seq<Label>, inCount': map<Label, int>)
    requires Within(g, labels) && n !in order && inCount.Keys == labels
    requires forall x :: x in labels ==> inCount[x] == |Waiting(g, order, x)|
    requires Distinct(children) && forall x :: x in children <==> (x, n) in g
    requires Distinct(rest) && forall x :: x in rest ==> x !in children
    ensures inCount'.Keys == labels && forall x :: x in labels ==> inCount'[x] == |Waiting(g, order + [n], x)|
    ensures forall x :: x in ready <==> x in rest || ((x, n) in g && Waiting(g, order + [n], x) == {})
  {
    ready, inCount' := rest, inCount;
    ghost var done := {};
    for i := 0 to |children|
      invariant done == Elements(children[..i])
      invariant Counted(g, labels, order, n, inCount', done)
      invariant forall x :: x in ready <==> x in rest || (x in done && Waiting(g, order + [n], x) == {})
    {
      var c := children[i];
      NewChild(children, i);
      WaitingStep(g, order, n, c);
      CountDown(g, labels, order, n, inCount', done, c);
      inCount' := inCount'[c := inCount'[c] - 1];
      done := done + {c};
      if inCount'[c] == 0 {
        ready := ready + [c];
      }
    }
    TakeAll(children);
    forall x | x in labels ensures inCount'[x] == |Waiting(g, order + [n], x)| {
      WaitingStep(g, order, n, x);
    }
  }

  /** The members of done count without n, the others still with it. */
  ghost predicate Counted(g: Graph<Label>, labels: set<Label>, order: seq<Label>, n: Label, inCount: map<Label, int>,
                          done: set<Label>) {
    inCount.Keys == labels &&
    forall x :: x in labels ==> inCount[x] == |Waiting(g, if x in done then order + [n] else order, x)|
  }

  lemma CountDown(g: Graph<Label>, labels: set<Label>, order: seq<Label>, n: Label, inCount: map<Label, int>,
                  done: set<Label>, c: Label)
    requires Within(g, labels) && n !in order && (c, n) in g && c !in done
    requires Counted(g, labels, order, n, inCount, done)
    ensures c in inCount && inCount[c] - 1 == |Waiting(g, order + [n], c)|
    ensures Counted(g, labels, order, n, inCount[c := inCount[c] - 1], done + {c})
  {
    WaitingStep(g, order, n, c);
  }

  lemma NewChild(children: seq<Label>, i: nat)
    requires Distinct(children) && i < |children|
    ensures children[i] in children && children[i] !in Elements(children[..i])
    ensures Elements(children[..i + 1]) == Elements(children[..i]) + {children[i]}
  {
    NextIsNew(children, i);
  }

  lemma ReadyAfter(g: Graph<Label>, labels: set<Label>, order: seq<Label>, n: Label, x: Label)
    requires Within(g, labels) && n in labels && n !in order
    requires n in ReadySet(g, labels, order)
    ensures x in ReadySet(g, labels, order + [n]) <==>
            (x in ReadySet(g, labels, order) && x != n)
            || ((x, n) in g && Waiting(g, order + [n], x) == {} && x !in order && x != n)
  {
    WaitingStep(g, order, n, x);
    if x in labels && x !in order && x != n && (x, n) !in g {
      assert Waiting(g, order + [n], x) == Waiting(g, order, x) by {
        assert n !in Waiting(g, order, x);
      }
    }
  }

  lemma AscendingHeadLeast(q: seq<Label>)
    requires Ascending(q) && q != []
    ensures IsLeast(q[0], Elements(q))
  {
    LeqTotal(q[0], q[0]);
  }

  lemma PlaceLeast(g: Graph<Label>, labels: set<Label>, order: seq<Label>, n: Label)
    requires LeastFirst(g, labels, order) && IsLeast(n, ReadySet(g, labels, order))
    ensures LeastFirst(g, labels, order + [n])
  {
    var longer := order + [n];
    forall i | 0 <= i < |longer| ensures IsLeast(longer[i], ReadySet(g, labels, longer[..i])) {
      assert longer[..i] == order[..i];
      if i == |order| {
        assert order[..i] == order;
      }
    }
  }

  function ChildrenOf(g: Graph<Label>, n: Label): seq<Label> {
    SortedLabels(set e | e in g && e.1 == n :: e.0)
  }

  /** One turn of the loop: the least ready label is placed and what waited only for it becomes ready. */
  method PlaceNext(g: Graph<Label>, labels: set<Label>, order: seq<Label>, ready: seq<Label>, inCount: map<Label, int>)
    returns (order': seq<Label>, ready': seq<Label>, inCount': map<Label, int>)
    requires Within(g, labels) && NoSelfReference(g) && Sorting(g, labels, order, ready, inCount) && ready != []
    ensures Sorting(g, labels, order', ready', inCount') && order' == order + [ready[0]]
  {
    var n, rest := ready[0], ready[1..];
    var children := ChildrenOf(g, n);
    HeadIsReady(g, labels, order, ready, inCount, children);
    order' := order + [n];
    var grown;
    grown, inCount' := Release(g, labels, order, n, children, rest, inCount);
    ready' := SortedLabels(Elements(grown));
    forall x ensures x in ready' <==> x in ReadySet(g, labels, order') {
      ReadyAfter(g, labels, order, n, x);
      TailWithoutHead(ready, x);
    }
  }

  lemma TailWithoutHead(ready: seq<Label>, x: Label)
    requires ready != [] && Distinct(ready)
    ensures x in ready[1..] <==> x in ready && x != ready[0]
  {
    assert ready == [ready[0]] + ready[1..];
  }

  /** The head of the ready list can be placed; what waits for it is not ready yet. */
  lemma HeadIsReady(g: Graph<Label>, labels: set<Label>, order: seq<Label>, ready: seq<Label>,
                    inCount: map<Label, int>, children: seq<Label>)
    requires Within(g, labels) && NoSelfReference(g) && Sorting(g, labels, order, ready, inCount) && ready != []
    requires forall x :: x in children <==> (x, ready[0]) in g
    ensures var n := ready[0];
            && n in labels && n !in order && n in ReadySet(g, labels, order)
            && Distinct(order + [n]) && Topological(g, order + [n]) && LeastFirst(g, labels, order + [n])
            && forall x :: x in children ==> x !in ready && x !in order && x != n
  {
    var n := ready[0];
    assert n in ready;
    assert n in ReadySet(g, labels, order);
    AscendingHeadLeast(ready);
    assert Elements(ready) == ReadySet(g, labels, order);
    PlaceLeast(g, labels, order, n);
    forall d | (n, d) in g ensures d in order {
      assert d in DependenciesIn(g, n) && d !in Waiting(g, order, n);
    }
    TopologicalExtends(g, order, n);
    forall x | x in children ensures x !in ready && x !in order && x != n {
      NotYetReady(g, labels, order, n, x);
    }
  }

  /** No vertex refers to itself. */
  ghost predicate NoSelfReference(g: Graph<Label>) {
    forall e :: e in g ==> e.0 != e.1
  }

  lemma NotYetReady(g: Graph<Label>, labels: set<Label>, order: seq<Label>, n: Label, x: Label)
    requires NoSelfReference(g) && Topological(g, order) && n !in order && (x, n) in g
    ensures x !in ReadySet(g, labels, order) && x !in order && x != n
  {
    assert n in DependenciesIn(g, x);
    assert n in Waiting(g, order, x);
    assert forall i :: 0 <= i < |order| && order[i] == x ==> n in order[..i];
  }

  /** What never becomes ready is exactly what sits on or above a cycle. */
  lemma StuckMeansCycle(g: Graph<Label>, labels: set<Label>, order: seq<Label>, x: Label)
    requires Within(g, labels) && Topological(g, order) && Distinct(order) && x in labels
    requires ReadySet(g, labels, order) == {}
    ensures x !in order <==> OnOrAboveCycle(g, x)
  {
    if x !in order {
      var stuck := set y | y in labels && y !in order;
      forall y | y in stuck ensures HasSuccessor(g, stuck, y) {
        assert y !in ReadySet(g, labels, order);
        var d :| d in Waiting(g, order, y);
        assert (y, d) in g;
      }
      var c := CycleBelow(g, stuck, [x]);
    } else if OnOrAboveCycle(g, x) {
      var c :| Reaches(g, x, c) && DependsOn(g, c, c);
      var i :| 0 <= i < |order| && order[i] == x;
      var w :| WalkBetween(g, w, x, c);
      if |w| >= 2 {
        WalkStaysBefore(g, order, w, i);
      }
      assert c in order;
      var j :| 0 <= j < |order| && order[j] == c;
      var loop :| WalkBetween(g, loop, c, c) && |loop| >= 2;
      WalkStaysBefore(g, order, loop, j);
      assert false;
    }
  }

  ghost predicate HasSuccessor(g: Graph<Label>, s: set<Label>, y: Label) {
    exists d :: (y, d) in g && d in s
  }

  /** Where every member has a successor inside, every walk runs into a cycle. */
  lemma {:induction false} CycleBelow(g: Graph<Label>, s: set<Label>, w: seq<Label>) returns (c: Label)
    requires forall y {:trigger HasSuccessor(g, s, y)} :: y in s ==> HasSuccessor(g, s, y)
    requires Walk(g, w) && Distinct(w) && forall y :: y in w ==> y in s
    ensures Reaches(g, w[0], c) && DependsOn(g, c, c)
    decreases |s| - |w|
  {
    DistinctLength(w, s);
    var last := w[|w| - 1];
    assert last in w && HasSuccessor(g, s, last);
    var d :| (last, d) in g && d in s;
    if d in w {
      LoopBack(g, w, d);
      c := d;
    } else {
      ExtendWalk(g, w, w[0], last, d);
      DistinctLength(w + [d], s);
      c := CycleBelow(g, s, w + [d]);
    }
  }

  /** The leftovers in insertion order. */
  function NotIn(insertion: seq<Label>, order: seq<Label>): seq<Label> {
    if insertion == [] then []
    else
      var x := insertion[|insertion| - 1];
      NotIn(insertion[..|insertion| - 1], order) + if x in order then [] else [x]
  }

  lemma {:induction false} NotInMembers(insertion: seq<Label>, order: seq<Label>)
    requires Distinct(insertion)
    ensures forall x :: x in NotIn(insertion, order) <==> x in insertion && x !in order
    ensures Distinct(NotIn(insertion, order))
  {
    if insertion != [] {
      var front, x := insertion[..|insertion| - 1], insertion[|insertion| - 1];
      assert insertion == front + [x];
      NotInMembers(front, order);
    }
  }

  /** The sort proper: everything that does not sit on or above a cycle. */
  method KahnPart(g: Graph<Label>, labels: set<Label>) returns (order: seq<Label>)
    requires Within(g, labels) && NoSelfReference(g)
    ensures Distinct(order) && Topological(g, order) && LeastFirst(g, labels, order)
    ensures forall x :: x in order <==> x in labels && !OnOrAboveCycle(g, x)
  {
    var inCount: map<Label, int> := map x | x in labels :: |DependenciesIn(g, x)|;
    var ready := SortedLabels(set x | x in labels && inCount[x] == 0);
    order := [];
    KahnStart(g, labels, ready, inCount);
    while ready != []
      invariant Sorting(g, labels, order, ready, inCount)
      decreases |labels| - |order|
    {
      KahnRoom(g, labels, order, ready, inCount);
      order, ready, inCount := PlaceNext(g, labels, order, ready, inCount);
    }
    KahnDone(g, labels, order, inCount);
  }

  lemma KahnStart(g: Graph<Label>, labels: set<Label>, ready: seq<Label>, inCount: map<Label, int>)
    requires inCount == (map x | x in labels :: |DependenciesIn(g, x)|)
    requires ready == SortedLabels(set x | x in labels && inCount[x] == 0)
    ensures Sorting(g, labels, [], ready, inCount)
  {
    forall x | x in labels ensures inCount[x] == |Waiting(g, [], x)| && (Waiting(g, [], x) == {} <==> inCount[x] == 0) {
      assert Waiting(g, [], x) == DependenciesIn(g, x);
    }
  }

  lemma KahnRoom(g: Graph<Label>, labels: set<Label>, order: seq<Label>, ready: seq<Label>, inCount: map<Label, int>)
    requires Sorting(g, labels, order, ready, inCount) && ready != []
    ensures |order| < |labels|
  {
    var n := ready[0];
    assert n in ready;
    assert n in ReadySet(g, labels, order);
    DistinctLength(order + [n], labels);
  }

  lemma KahnDone(g: Graph<Label>, labels: set<Label>, order: seq<Label>, inCount: map<Label, int>)
    requires Within(g, labels) && Sorting(g, labels, order, [], inCount)
    ensures forall x :: x in order <==> x in labels && !OnOrAboveCycle(g, x)
  {
    assert ReadySet(g, labels, order) == {};
    forall x | x in labels ensures x in order <==> !OnOrAboveCycle(g, x) {
      StuckMeansCycle(g, labels, order, x);
    }
  }

  /** Every batch label comes out once. The Kahn part stands deps-first, takes the least ready
      label each time, and is exactly what does not sit on or above a cycle; the rest follows
      in insertion order. */
  method SafeTopologicalOrder(g: Graph<Label>, insertion: seq<Label>)
    returns (order: seq<Label>, ghost kahn: seq<Label>)
    requires Distinct(insertion) && Within(g, Elements(insertion)) && NoSelfReference(g)
    ensures Distinct(order) && forall x :: x in order <==> x in insertion
    ensures order == kahn + NotIn(insertion, kahn)
    ensures Topological(g, kahn) && LeastFirst(g, Elements(insertion), kahn)
    ensures forall x :: x in kahn <==> x in insertion && !OnOrAboveCycle(g, x)
  {
    order := KahnPart(g, Elements(insertion));
    kahn := order;
    NotInMembers(insertion, kahn);
    var i := 0;
    while i < |insertion|
      invariant 0 <= i <= |insertion|
      invariant order == kahn + NotIn(insertion[..i], kahn)
      invariant forall x :: x in order <==> x in kahn || x in insertion[..i]
    {
      var x := insertion[i];
      TakeStep(insertion, i);
      assert insertion[..i + 1][..i] == insertion[..i];
      assert x !in insertion[..i];
      if x !in order {
        order := order + [x];
      }
      i := i + 1;
    }
    TakeAll(insertion);
    ConcatDistinct(kahn, NotIn(insertion, kahn));
  }
}
