/** Finite directed graphs as edge sets. An edge (u, v) reads "u depends on v",
    the direction of the DependsOn relation. */
module Graphs {

  type Graph<!T(==)> = set<(T, T)>

  ghost predicate Walk<T>(g: Graph<T>, w: seq<T>) {
    && |w| >= 1
    && forall i :: 0 <= i < |w| - 1 ==> (w[i], w[i + 1]) in g
  }

  /** A walk that starts in a and ends in b; the one-vertex walk counts. */
  ghost predicate WalkBetween<T>(g: Graph<T>, w: seq<T>, a: T, b: T) {
    Walk(g, w) && w[0] == a && w[|w| - 1] == b
  }

  ghost predicate Reaches<T(!new)>(g: Graph<T>, a: T, b: T) {
    exists w :: WalkBetween(g, w, a, b)
  }

  /** b lies on the far end of at least one edge followed from a. */
  ghost predicate DependsOn<T(!new)>(g: Graph<T>, a: T, b: T) {
    exists w :: WalkBetween(g, w, a, b) && |w| >= 2
  }

  ghost predicate ClosedWalk<T>(g: Graph<T>, w: seq<T>) {
    Walk(g, w) && |w| >= 2 && w[0] == w[|w| - 1]
  }

  ghost predicate Acyclic<T(!new)>(g: Graph<T>) {
    forall w :: !ClosedWalk(g, w)
  }

  lemma WalkConcat<T(!new)>(g: Graph<T>, w1: seq<T>, w2: seq<T>)
    requires Walk(g, w1) && Walk(g, w2) && w1[|w1| - 1] == w2[0]
    ensures Walk(g, w1 + w2[1..])
    ensures (w1 + w2[1..])[|w1 + w2[1..]| - 1] == w2[|w2| - 1]
  {
    var w := w1 + w2[1..];
    forall i | 0 <= i < |w| - 1 ensures (w[i], w[i + 1]) in g {
      if i >= |w1| - 1 {
        assert (w2[i - |w1| + 1], w2[i - |w1| + 2]) in g;
      }
    }
  }

  lemma ReachesRefl<T(!new)>(g: Graph<T>, a: T)
    ensures Reaches(g, a, a)
  {
    assert WalkBetween(g, [a], a, a);
  }

  lemma ReachesTrans<T(!new)>(g: Graph<T>, a: T, b: T, c: T)
    requires Reaches(g, a, b) && Reaches(g, b, c)
    ensures Reaches(g, a, c)
  {
    var w1 :| WalkBetween(g, w1, a, b);
    var w2 :| WalkBetween(g, w2, b, c);
    WalkConcat(g, w1, w2);
    assert WalkBetween(g, w1 + w2[1..], a, c);
  }

  lemma ReachesEdge<T(!new)>(g: Graph<T>, a: T, b: T)
    requires (a, b) in g
    ensures Reaches(g, a, b)
  {
    assert WalkBetween(g, [a, b], a, b);
  }

  /** Depending is following one edge and then reaching. */
  lemma DependsOnSplit<T(!new)>(g: Graph<T>, a: T, b: T)
    ensures DependsOn(g, a, b) <==> exists d :: (a, d) in g && Reaches(g, d, b)
  {
    if DependsOn(g, a, b) {
      var w :| WalkBetween(g, w, a, b) && |w| >= 2;
      var rest := w[1..];
      forall i | 0 <= i < |rest| - 1 ensures (rest[i], rest[i + 1]) in g {
        assert (w[i + 1], w[i + 2]) in g;
      }
      assert WalkBetween(g, rest, w[1], b);
      assert (w[0], w[1]) in g;
    }
    if d :| (a, d) in g && Reaches(g, d, b) {
      var w :| WalkBetween(g, w, d, b);
      assert Walk(g, [a, d]);
      WalkConcat(g, [a, d], w);
      assert WalkBetween(g, [a, d] + w[1..], a, b);
    }
  }

  lemma DependsOnReaches<T(!new)>(g: Graph<T>, a: T, b: T, c: T)
    requires (Reaches(g, a, b) && DependsOn(g, b, c)) || (DependsOn(g, a, b) && Reaches(g, b, c))
    ensures DependsOn(g, a, c)
  {
    if Reaches(g, a, b) && DependsOn(g, b, c) {
      var w1 :| WalkBetween(g, w1, a, b);
      var w2 :| WalkBetween(g, w2, b, c) && |w2| >= 2;
      WalkConcat(g, w1, w2);
      assert WalkBetween(g, w1 + w2[1..], a, c);
    } else {
      var w1 :| WalkBetween(g, w1, a, b) && |w1| >= 2;
      var w2 :| WalkBetween(g, w2, b, c);
      WalkConcat(g, w1, w2);
      assert WalkBetween(g, w1 + w2[1..], a, c);
    }
  }

  lemma AcyclicMeans<T(!new)>(g: Graph<T>)
    ensures Acyclic(g) <==> forall x :: !DependsOn(g, x, x)
  {
    if Acyclic(g) {
      forall x ensures !DependsOn(g, x, x) {
        if DependsOn(g, x, x) {
          var w :| WalkBetween(g, w, x, x) && |w| >= 2;
          assert ClosedWalk(g, w);
        }
      }
    }
    if !Acyclic(g) {
      var w :| ClosedWalk(g, w);
      assert WalkBetween(g, w, w[0], w[0]);
      assert DependsOn(g, w[0], w[0]);
    }
  }

  lemma EmptyAcyclic<T(!new)>(g: Graph<T>)
    requires g == {}
    ensures Acyclic(g)
  {
    forall w ensures !ClosedWalk(g, w) {
      if |w| >= 2 {
        assert (w[0], w[1]) !in g;
      }
    }
  }

  lemma SubgraphAcyclic<T(!new)>(g: Graph<T>, h: Graph<T>)
    requires g <= h && Acyclic(h)
    ensures Acyclic(g)
  {
    forall w ensures !ClosedWalk(g, w) {
      if ClosedWalk(g, w) {
        assert ClosedWalk(h, w);
      }
    }
  }

  function OutEdges<T(==)>(x: T, deps: set<T>): Graph<T> {
    set d | d in deps :: (x, d)
  }

  /** The graph with every edge leaving x replaced by edges to deps. */
  function Rewire<T(==)>(g: Graph<T>, x: T, deps: set<T>): Graph<T> {
    (set e | e in g && e.0 != x) + OutEdges(x, deps)
  }

  function Heads<T(==)>(g: Graph<T>): set<T> {
    set e | e in g :: e.1
  }

  /** A walk into x can be cut at its first visit of x, so edges leaving x never matter.
      The walk is only followed through vertices of the region that has no way out but x. */
  lemma {:induction false} WalkIntoAvoids<T(!new)>(g: Graph<T>, h: Graph<T>, x: T, region: set<T>, w: seq<T>)
    requires Walk(g, w) && w[0] in region && w[|w| - 1] == x
    requires forall e :: e in g && e.0 in region && e.0 != x ==> e in h && e.1 in region
    ensures Reaches(h, w[0], x)
    decreases |w|
  {
    if w[0] == x {
      ReachesRefl(h, x);
    } else {
      var rest := w[1..];
      forall i | 0 <= i < |rest| - 1 ensures (rest[i], rest[i + 1]) in g {
        assert (w[i + 1], w[i + 2]) in g;
      }
      assert (w[0], w[1]) in g;
      WalkIntoAvoids(g, h, x, region, rest);
      ReachesEdge(h, w[0], w[1]);
      ReachesTrans(h, w[0], w[1], x);
    }
  }

  lemma ReachesOther<T(!new)>(g: Graph<T>, a: T, b: T)
    requires Reaches(g, a, b) && a != b
    ensures DependsOn(g, a, b)
  {
    var w :| WalkBetween(g, w, a, b);
    assert |w| >= 2;
  }

  lemma DependsOnIsReaching<T(!new)>(g: Graph<T>, a: T, b: T)
    requires DependsOn(g, a, b)
    ensures Reaches(g, a, b)
  {
  }

  lemma ReachesRewired<T(!new)>(g: Graph<T>, x: T, deps: set<T>, a: T)
    ensures Reaches(g, a, x) <==> Reaches(Rewire(g, x, deps), a, x)
  {
    var h := Rewire(g, x, deps);
    if Reaches(g, a, x) {
      var w :| WalkBetween(g, w, a, x);
      WalkIntoAvoids(g, h, x, Heads(g) + {a}, w);
    }
    if Reaches(h, a, x) {
      var w :| WalkBetween(h, w, a, x);
      WalkIntoAvoids(h, g, x, Heads(h) + {a}, w);
    }
  }

  lemma ClosedWalkThrough<T(!new)>(g: Graph<T>, w: seq<T>, i: nat)
    requires ClosedWalk(g, w) && i < |w| - 1
    ensures Reaches(g, w[i + 1], w[i])
  {
    var tail := w[i + 1..];
    forall k | 0 <= k < |tail| - 1 ensures (tail[k], tail[k + 1]) in g {
      assert (w[i + 1 + k], w[i + 2 + k]) in g;
    }
    assert WalkBetween(g, tail, w[i + 1], w[|w| - 1]);
    var front := w[..i + 1];
    forall k | 0 <= k < |front| - 1 ensures (front[k], front[k + 1]) in g {
      assert (w[k], w[k + 1]) in g;
    }
    assert WalkBetween(g, front, w[0], w[i]);
    ReachesTrans(g, w[i + 1], w[0], w[i]);
  }

  /** Rewiring one vertex of an acyclic graph closes a cycle exactly when one of
      its new targets already reached it. */
  lemma RewireAcyclic<T(!new)>(g: Graph<T>, x: T, deps: set<T>)
    requires Acyclic(g)
    ensures Acyclic(Rewire(g, x, deps)) <==> forall d :: d in deps ==> !Reaches(g, d, x)
  {
    var h := Rewire(g, x, deps);
    if d :| d in deps && Reaches(g, d, x) {
      ReachesRewired(g, x, deps, d);
      assert (x, d) in h;
      DependsOnSplit(h, x, x);
      AcyclicMeans(h);
    }
    if !Acyclic(h) {
      var w :| ClosedWalk(h, w);
      if i :| 0 <= i < |w| - 1 && w[i] == x {
        ClosedWalkThrough(h, w, i);
        assert (w[i], w[i + 1]) in h;
        assert w[i + 1] in deps;
        ReachesRewired(g, x, deps, w[i + 1]);
      } else {
        forall i | 0 <= i < |w| - 1 ensures (w[i], w[i + 1]) in g {
          assert (w[i], w[i + 1]) in h;
        }
        assert ClosedWalk(g, w);
      }
    }
  }

  /** Edges into vertices that have no way out never take part in a cycle. */
  lemma SinkEdgesHarmless<T(!new)>(g: Graph<T>, h: Graph<T>)
    requires g <= h
    requires forall e :: e in h && e !in g ==> forall f :: f in h ==> f.0 != e.1
    ensures Acyclic(g) <==> Acyclic(h)
  {
    if Acyclic(h) {
      SubgraphAcyclic(g, h);
    }
    if !Acyclic(h) {
      var w :| ClosedWalk(h, w);
      forall i | 0 <= i < |w| - 1 ensures (w[i], w[i + 1]) in g {
        assert (w[i], w[i + 1]) in h;
        if i + 1 < |w| - 1 {
          assert (w[i + 1], w[i + 2]) in h;
        } else {
          assert (w[0], w[1]) in h;
        }
      }
      assert ClosedWalk(g, w);
    }
  }

  function Elements<T(==)>(s: seq<T>): set<T> {
    set x | x in s
  }

  lemma {:induction false} DistinctLength<T>(s: seq<T>, bound: set<T>)
    requires forall i, j :: 0 <= i < j < |s| ==> s[i] != s[j]
    requires forall x :: x in s ==> x in bound
    ensures |s| <= |bound|
  {
    if s != [] {
      var last := s[|s| - 1];
      DistinctLength(s[..|s| - 1], bound - {last});
    }
  }

  /** A walk that steps back onto one of its own vertices has found a cycle. */
  lemma LoopBack<T(!new)>(g: Graph<T>, w: seq<T>, d: T)
    requires Walk(g, w) && d in w && (w[|w| - 1], d) in g
    ensures Reaches(g, w[0], d) && DependsOn(g, d, d)
  {
    var i :| 0 <= i < |w| && w[i] == d;
    var front := w[..i + 1];
    forall k | 0 <= k < |front| - 1 ensures (front[k], front[k + 1]) in g {
      assert (w[k], w[k + 1]) in g;
    }
    assert WalkBetween(g, front, w[0], d);
    var loop := w[i..] + [d];
    forall k | 0 <= k < |loop| - 1 ensures (loop[k], loop[k + 1]) in g {
      if k < |w| - i - 1 {
        assert (w[i + k], w[i + k + 1]) in g;
      }
    }
    assert WalkBetween(g, loop, d, d);
  }

  /** Every nonempty finite set of vertices of an acyclic graph has a member
      that depends on no other member. */
  lemma MinimalExists<T(!new)>(g: Graph<T>, s: set<T>) returns (m: T)
    requires Acyclic(g) && s != {}
    ensures m in s && forall d :: (m, d) in g ==> d !in s
  {
    var start :| start in s;
    m := MinimalFrom(g, s, [start]);
  }

  lemma {:induction false} MinimalFrom<T(!new)>(g: Graph<T>, s: set<T>, w: seq<T>) returns (m: T)
    requires Acyclic(g) && Walk(g, w)
    requires forall x :: x in w ==> x in s
    requires forall i, j :: 0 <= i < j < |w| ==> w[i] != w[j]
    ensures m in s && forall d :: (m, d) in g ==> d !in s
    decreases |s| - |w|
  {
    DistinctLength(w, s);
    var last := w[|w| - 1];
    if d :| (last, d) in g && d in s {
      if d in w {
        LoopBack(g, w, d);
        AcyclicMeans(g);
        m := d;
      } else {
        var w' := w + [d];
        forall k | 0 <= k < |w'| - 1 ensures (w'[k], w'[k + 1]) in g {
          if k < |w| - 1 {
            assert (w[k], w[k + 1]) in g;
          }
        }
        DistinctLength(w', s);
        m := MinimalFrom(g, s, w');
      }
    } else {
      m := last;
    }
  }

  /** A set closed under "who depends on a member" holds everything that reaches a member. */
  lemma {:induction false} ClosedUnderDependents<T(!new)>(g: Graph<T>, s: set<T>, a: T, b: T)
    requires forall e :: e in g && e.1 in s ==> e.0 in s
    requires b in s && Reaches(g, a, b)
    ensures a in s
  {
    var w :| WalkBetween(g, w, a, b);
    WalkBackInto(g, s, w);
  }

  lemma {:induction false} WalkBackInto<T(!new)>(g: Graph<T>, s: set<T>, w: seq<T>)
    requires forall e :: e in g && e.1 in s ==> e.0 in s
    requires Walk(g, w) && w[|w| - 1] in s
    ensures w[0] in s
  {
    if |w| >= 2 {
      var rest := w[1..];
      forall i | 0 <= i < |rest| - 1 ensures (rest[i], rest[i + 1]) in g {
        assert (w[i + 1], w[i + 2]) in g;
      }
      WalkBackInto(g, s, rest);
      assert (w[0], w[1]) in g;
    }
  }

  /** A set closed under following edges holds everything a member reaches. */
  lemma {:induction false} ClosedUnderEdges<T(!new)>(g: Graph<T>, s: set<T>, w: seq<T>)
    requires forall e :: e in g && e.0 in s ==> e.1 in s
    requires Walk(g, w) && w[0] in s
    ensures w[|w| - 1] in s
  {
    if |w| >= 2 {
      var rest := w[1..];
      forall i | 0 <= i < |rest| - 1 ensures (rest[i], rest[i + 1]) in g {
        assert (w[i + 1], w[i + 2]) in g;
      }
      assert (w[0], w[1]) in g;
      ClosedUnderEdges(g, s, rest);
    }
  }

  /** x depends on a member of names in g, or is one. */
  ghost predicate InCone<T(!new)>(g: Graph<T>, names: set<T>, x: T) {
    exists t :: t in names && Reaches(g, x, t)
  }

  /** A walk against the edges that has visited seen and still has pending to visit. */
  ghost predicate ConeSoFar<T(!new)>(g: Graph<T>, names: set<T>, seen: set<T>, pending: set<T>) {
    && (forall x :: x in seen + pending ==> InCone(g, names, x))
    && names <= seen + pending
    && (forall e :: e in g && e.1 in seen ==> e.0 in seen + pending)
  }

  lemma ConeStart<T(!new)>(g: Graph<T>, names: set<T>)
    ensures ConeSoFar(g, names, {}, names)
  {
    forall x | x in names ensures InCone(g, names, x) {
      ReachesRefl(g, x);
    }
  }

  lemma ConeVisit<T(!new)>(g: Graph<T>, names: set<T>, seen: set<T>, pending: set<T>, rest: set<T>, more: set<T>, x: T)
    requires ConeSoFar(g, names, seen, pending) && pending == rest + {x}
    requires forall y :: y in more <==> (y, x) in g
    ensures x in seen ==> ConeSoFar(g, names, seen, rest)
    ensures ConeSoFar(g, names, seen + {x}, rest + more)
  {
    forall y | y in more ensures InCone(g, names, y) {
      var t :| t in names && Reaches(g, x, t);
      ReachesEdge(g, y, x);
      ReachesTrans(g, y, x, t);
    }
  }

  lemma ConeDone<T(!new)>(g: Graph<T>, names: set<T>, seen: set<T>)
    requires ConeSoFar(g, names, seen, {})
    ensures forall x :: x in seen <==> InCone(g, names, x)
  {
    forall x | InCone(g, names, x) ensures x in seen {
      var t :| t in names && Reaches(g, x, t);
      ClosedUnderDependents(g, seen, x, t);
    }
  }
}
