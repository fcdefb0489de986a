/** The breadth-first path search behind every cycle check
    (common/kb/kuzu_backend.py, _bfs_path). */
module Search {
  import opened Graphs

  datatype Option<+T> = None | Some(value: T)

  type Adjacency<!T(==)> = map<T, seq<T>>

  function Neighbours<T(==)>(adjacency: Adjacency<T>, u: T): seq<T> {
    if u in adjacency then adjacency[u] else []
  }

  /** g is the graph whose edges the adjacency lists spell out. */
  ghost predicate Lists<T(!new)>(adjacency: Adjacency<T>, g: Graph<T>) {
    forall e :: e in g <==> e.1 in Neighbours(adjacency, e.0)
  }

  /** Walks recorded for the visited vertices: each extends its parent's walk by one edge. */
  ghost predicate Trails<T(!new)>(g: Graph<T>, start: T, visited: set<T>, parent: map<T, T>, trail: map<T, seq<T>>) {
    && trail.Keys == visited
    && start in visited && trail[start] == [start]
    && (forall v :: v in visited ==> WalkBetween(g, trail[v], start, v))
    && (forall v {:trigger Linked(start, visited, parent, trail, v)} :: Linked(start, visited, parent, trail, v))
  }

  ghost predicate Linked<T(!new)>(start: T, visited: set<T>, parent: map<T, T>, trail: map<T, seq<T>>, v: T) {
    v in visited && v != start ==>
      && v in parent && v in trail && parent[v] in visited && parent[v] in trail
      && trail[v] == trail[parent[v]] + [v]
  }

  lemma ExtendWalk<T(!new)>(g: Graph<T>, w: seq<T>, a: T, b: T, c: T)
    requires WalkBetween(g, w, a, b) && (b, c) in g
    ensures WalkBetween(g, w + [c], a, c)
  {
    var w' := w + [c];
    forall i | 0 <= i < |w'| - 1 ensures (w'[i], w'[i + 1]) in g {
      if i < |w| - 1 {
        assert (w[i], w[i + 1]) in g;
      }
    }
  }

  /** Follows parent links from cur back to start and puts target behind them. */
  method Reconstruct<T(==, !new)>(ghost g: Graph<T>, start: T, target: T, cur: T, ghost visited: set<T>,
                                  parent: map<T, T>, ghost trail: map<T, seq<T>>)
    returns (path: seq<T>)
    requires Trails(g, start, visited, parent, trail)
    requires cur in visited
    ensures path == trail[cur] + [target]
  {
    var suffix := [cur, target];
    var p := cur;
    while p != start
      invariant p in visited && suffix != [] && suffix[0] == p
      invariant trail[p] + suffix[1..] == trail[cur] + [target]
      decreases |trail[p]|
    {
      assert Linked(start, visited, parent, trail, p);
      var q := parent[p];
      assert trail[p] + suffix[1..] == trail[q] + suffix;
      suffix := [q] + suffix;
      assert suffix[1..] == trail[p][|trail[p]| - 1..] + suffix[2..];
      p := q;
    }
    assert suffix == [start] + suffix[1..];
    path := suffix;
  }

  /** A finite set holding start and the head of every edge. */
  lemma HeadsOf<T(!new)>(g: Graph<T>, start: T) returns (heads: set<T>)
    ensures start in heads && forall e :: e in g ==> e.1 in heads
  {
    heads := {start} + Heads(g);
  }

  lemma TrailsGrow<T(!new)>(g: Graph<T>, start: T, visited: set<T>, parent: map<T, T>, trail: map<T, seq<T>>, cur: T,
                            nxt: T)
    requires Trails(g, start, visited, parent, trail)
    requires cur in visited && nxt !in visited && (cur, nxt) in g
    ensures Trails(g, start, visited + {nxt}, parent[nxt := cur], trail[nxt := trail[cur] + [nxt]])
  {
    ExtendWalk(g, trail[cur], start, cur, nxt);
    var visited', parent', trail' := visited + {nxt}, parent[nxt := cur], trail[nxt := trail[cur] + [nxt]];
    forall v ensures Linked(start, visited', parent', trail', v) {
      assert Linked(start, visited, parent, trail, v);
    }
  }

  /** Every visited vertex outside the open ones has all its successors visited. */
  ghost predicate Explored<T(!new)>(g: Graph<T>, visited: set<T>, open: seq<T>) {
    && (forall x :: x in open ==> x in visited)
    && (forall e :: e in g && e.0 in visited && e.0 !in open ==> e.1 in visited)
  }

  /** The inner loop of the search: visits the successors of cur that are still new and
      stops as soon as one of them is the target. */
  method VisitSuccessors<T(==, !new)>(ghost g: Graph<T>, next: seq<T>, start: T, target: T, cur: T, visited: set<T>,
                                      q: seq<T>, parent: map<T, T>, ghost trail: map<T, seq<T>>)
    returns (found: bool, visited': set<T>, q': seq<T>, parent': map<T, T>, ghost trail': map<T, seq<T>>)
    requires Trails(g, start, visited, parent, trail) && Explored(g, visited, [cur] + q)
    requires forall v :: v in next <==> (cur, v) in g
    requires target !in visited
    ensures found ==> (cur, target) in g && cur in visited' && Trails(g, start, visited', parent', trail')
    ensures !found ==> Trails(g, start, visited', parent', trail') && Explored(g, visited', q')
    ensures visited <= visited' && forall v :: v in visited' && v !in visited ==> (cur, v) in g
    ensures target !in visited'
    ensures visited' == visited ==> q' == q
  {
    found, visited', q', parent', trail' := false, visited, q, parent, trail;
    var i := 0;
    while i < |next|
      invariant 0 <= i <= |next|
      invariant visited <= visited' && target !in visited'
      invariant forall v :: v in visited' && v !in visited ==> (cur, v) in g
      invariant Trails(g, start, visited', parent', trail')
      invariant Explored(g, visited', [cur] + q')
      invariant forall v :: v in next[..i] ==> v in visited'
      invariant visited' == visited ==> q' == q
    {
      var nxt := next[i];
      assert (cur, nxt) in g;
      if nxt !in visited' {
        if nxt == target {
          // The source stores parent[target] first; the walk back starts at cur either way.
          found := true;
          return;
        }
        TrailsGrow(g, start, visited', parent', trail', cur, nxt);
        parent', trail' := parent'[nxt := cur], trail'[nxt := trail'[cur] + [nxt]];
        visited', q' := visited' + {nxt}, q' + [nxt];
      }
      assert next[..i + 1] == next[..i] + [nxt];
      i := i + 1;
    }
    assert next[..i] == next;
  }

  lemma HeadTail<T>(q: seq<T>)
    requires q != []
    ensures q == [q[0]] + q[1..]
  {
  }

  method BfsPath<T(==, !new)>(ghost g: Graph<T>, adjacency: Adjacency<T>, start: T, target: T)
    returns (path: Option<seq<T>>)
    requires Lists(adjacency, g)
    ensures path.None? <==> !Reaches(g, start, target)
    ensures path.Some? ==> WalkBetween(g, path.value, start, target)
  {
    if start == target {
      ReachesRefl(g, start);
      assert WalkBetween(g, [start], start, target);
      return Some([start]);
    }
    ghost var universe := HeadsOf(g, start);
    var visited, parent, q := {start}, map[], [start];
    ghost var trail := map[start := [start]];
    while q != []
      invariant Trails(g, start, visited, parent, trail)
      invariant Explored(g, visited, q)
      invariant visited <= universe && target !in visited
      decreases |universe - visited|, |q|
    {
      var cur := q[0];
      ghost var before := visited;
      HeadTail(q);
      var next := Neighbours(adjacency, cur);
      assert forall v :: v in next <==> (cur, v) in g;
      var found;
      found, visited, q, parent, trail := VisitSuccessors(g, next, start, target, cur, visited, q[1..], parent, trail);
      if found {
        ExtendWalk(g, trail[cur], start, cur, target);
        var p := Reconstruct(g, start, target, cur, visited, parent, trail);
        return Some(p);
      }
      Shrinks(universe, before, visited);
    }
    if Reaches(g, start, target) {
      var w :| WalkBetween(g, w, start, target);
      ClosedUnderEdges(g, visited, w);
    }
    return None;
  }

  lemma Shrinks<T>(universe: set<T>, before: set<T>, visited: set<T>)
    requires before <= visited <= universe
    ensures visited == before || |universe - visited| < |universe - before|
  {
    if visited != before {
      SmallerSet(universe - visited, universe - before);
    }
  }

  lemma {:induction false} SmallerSet<T>(a: set<T>, b: set<T>)
    requires a < b
    ensures |a| < |b|
  {
    var x :| x in b && x !in a;
    if y :| y in a {
      SmallerSet(a - {y}, b - {y});
    }
  }
}
