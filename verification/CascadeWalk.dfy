/** The turns of a cascade read off the graph: which labels get a turn and which of them change,
    computed from the edges and from the labels whose stored hash cannot become current again. */
module CascadeWalk {
  import opened CascadeReset
  import opened Graphs
  import opened Hashing
  import opened Labels
  import opened MerkleCascade
  import opened Store

  datatype Turns = Turns(popped: seq<Label>, moved: set<Label>)

  predicate CitesMoved(edges: Graph<Label>, moved: set<Label>, x: Label) {
    exists d :: d in moved && (x, d) in edges
  }

  /** Breadth-first over dependents; a label passes the walk on exactly when it is stale from the
      start or cites a label that has already moved. */
  function MovingTurns(universe: set<Label>, edges: Graph<Label>, stale: set<Label>, frontier: seq<Label>,
                       seen: set<Label>, moved: set<Label>): Turns
    decreases universe - seen, |frontier|
  {
    if frontier == [] then Turns([], {})
    else
      var name, rest := frontier[0], frontier[1..];
      if name in seen then MovingTurns(universe, edges, stale, rest, seen, moved)
      else if name !in universe then
        assert universe - (seen + {name}) == universe - seen;
        MovingTurns(universe, edges, stale, rest, seen + {name}, moved)
      else
        assert name in universe - seen;
        if name in stale || CitesMoved(edges, moved, name) then
          var t := MovingTurns(universe, edges, stale, rest + SortedLabels(DependentsOf(edges, name)), seen + {name},
                               moved + {name});
          Turns([name] + t.popped, t.moved + {name})
        else
          var t := MovingTurns(universe, edges, stale, rest, seen + {name}, moved);
          t.(popped := [name] + t.popped)
  }

  function MovingTurnsFrom(universe: set<Label>, edges: Graph<Label>, stale: set<Label>, start: Label): Turns {
    MovingTurns(universe, edges, stale, SortedLabels(DependentsOf(edges, start)), {}, {})
  }

  /** No label has its turn before a label that moves and that it cites. */
  ghost predicate MovesFirst(edges: Graph<Label>, t: Turns) {
    forall i, j :: 0 <= i <= j < |t.popped| && t.popped[j] in t.moved ==> (t.popped[i], t.popped[j]) !in edges
  }

  /** While start keeps its hash, the stored hash of x differs from every hash a turn can compute. */
  ghost predicate Hopeless(nodes: Nodes, edges: Graph<Label>, start: Label, x: Label)
    requires x in nodes && start in nodes
  {
    var h := nodes[x].statementHash;
    h.StatementHash? &&
    (h.deps.Keys != EdgeDeps(nodes, edges, x).Keys
     || ((x, start) in edges && start in h.deps && h.deps[start] != nodes[start].statementHash))
  }

  /** What the walk needs to know about the store it starts from. */
  ghost predicate WalkReady(nodes: Nodes, edges: Graph<Label>, stale: set<Label>, start: Label) {
    && EdgesInside(nodes, edges) && Acyclic(edges) && start in nodes
    && (forall x :: x in stale ==> x in nodes && Hopeless(nodes, edges, start, x))
    && (forall x :: x in nodes && x !in stale ==> CurrentAt(nodes, edges, x))
    && (forall x :: x in nodes && x !in stale && (x, start) in edges ==> CoherentAt(nodes, edges, x))
  }

  /** The store in the middle of the run: exactly the moved labels have new hashes. */
  ghost predicate MidRun(nodes: Nodes, now: Nodes, moved: set<Label>) {
    && RowsHashed(now) && now.Keys == nodes.Keys
    && (forall x :: x in nodes && x !in moved ==> now[x] == nodes[x])
    && (forall x :: x in moved ==> x in nodes && now[x].statementHash != nodes[x].statementHash)
  }

  lemma SameHashSameRow(nodes: Nodes, edges: Graph<Label>, name: Label)
    requires name in nodes && RowsHashed(nodes)
    ensures Rehashed(nodes, edges, name) == nodes[name] <==>
            nodes[name].statementHash
            == StatementHash(name, nodes[name].kind, nodes[name].statement, EdgeDeps(nodes, edges, name))
  {
  }

  lemma HopelessMoves(nodes: Nodes, now: Nodes, edges: Graph<Label>, moved: set<Label>, start: Label, name: Label)
    requires MidRun(nodes, now, moved) && start in nodes && name in nodes && name !in moved && start !in moved
    requires Hopeless(nodes, edges, start, name)
    ensures Rehashed(now, edges, name) != now[name]
  {
    SameHashSameRow(now, edges, name);
    assert EdgeDeps(now, edges, name).Keys == EdgeDeps(nodes, edges, name).Keys;
    if (name, start) in edges {
      assert start in DepsOf(edges, name) && EdgeDeps(now, edges, name)[start] == nodes[start].statementHash;
    }
  }

  lemma CitingMoves(nodes: Nodes, now: Nodes, edges: Graph<Label>, moved: set<Label>, name: Label, d: Label)
    requires MidRun(nodes, now, moved) && name in nodes && name !in moved && d in moved && (name, d) in edges
    requires CurrentAt(nodes, edges, name)
    ensures Rehashed(now, edges, name) != now[name]
  {
    SameHashSameRow(now, edges, name);
    assert d in DepsOf(edges, name) && EdgeDeps(now, edges, name)[d] == now[d].statementHash;
    assert CarriesHash(nodes[name].statementHash, d, nodes[d].statementHash);
  }

  lemma QuietStays(nodes: Nodes, now: Nodes, edges: Graph<Label>, moved: set<Label>, name: Label)
    requires MidRun(nodes, now, moved) && EdgesInside(nodes, edges) && name in nodes && name !in moved
    requires CoherentAt(nodes, edges, name) && !CitesMoved(edges, moved, name)
    ensures Rehashed(now, edges, name) == now[name]
  {
    SameHashSameRow(now, edges, name);
    forall d | d in DepsOf(edges, name) ensures d in nodes && now[d] == nodes[d] {
      assert (name, d) in edges;
    }
    assert EdgeDeps(now, edges, name) == EdgeDeps(nodes, edges, name);
  }

  /** Whether a turn changes a row can be told from the graph. */
  lemma TurnMoves(nodes: Nodes, now: Nodes, edges: Graph<Label>, stale: set<Label>, moved: set<Label>, start: Label,
                  name: Label)
    requires WalkReady(nodes, edges, stale, start) && MidRun(nodes, now, moved)
    requires name in nodes && name !in moved && start !in moved && Caused(edges, moved + {start}, name)
    ensures Rehashed(now, edges, name) != now[name] <==> name in stale || CitesMoved(edges, moved, name)
  {
    if name in stale {
      HopelessMoves(nodes, now, edges, moved, start, name);
    } else if CitesMoved(edges, moved, name) {
      var d :| d in moved && (name, d) in edges;
      CitingMoves(nodes, now, edges, moved, name, d);
    } else {
      QuietStays(nodes, now, edges, moved, name);
    }
  }

  lemma MoveOne(nodes: Nodes, now: Nodes, edges: Graph<Label>, moved: set<Label>, name: Label)
    requires MidRun(nodes, now, moved) && name in nodes && name !in moved && Rehashed(now, edges, name) != now[name]
    ensures MidRun(nodes, now[name := Rehashed(now, edges, name)], moved + {name})
  {
    RehashedResets(now, edges, name);
  }

  /** A frontier of labels that a moved label or start has pushed. */
  ghost predicate Pushed(edges: Graph<Label>, frontier: seq<Label>, moved: set<Label>, start: Label) {
    forall f :: f in frontier ==> Caused(edges, moved + {start}, f) && DependsOn(edges, f, start)
  }

  lemma PushMore(edges: Graph<Label>, frontier: seq<Label>, moved: set<Label>, start: Label)
    requires frontier != [] && Pushed(edges, frontier, moved, start)
    ensures Pushed(edges, frontier[1..], moved, start)
    ensures Pushed(edges, frontier[1..] + SortedLabels(DependentsOf(edges, frontier[0])), moved + {frontier[0]}, start)
  {
    var name, rest := frontier[0], frontier[1..];
    assert frontier == [name] + rest;
    var pushed := SortedLabels(DependentsOf(edges, name));
    forall f | f in rest + pushed ensures Caused(edges, moved + {name} + {start}, f) && DependsOn(edges, f, start) {
      if f in pushed {
        assert (f, name) in edges && name in moved + {name} + {start};
        ReachesEdge(edges, f, name);
        DependsOnReaches(edges, f, name, start);
      } else {
        assert f in frontier;
        var c :| c in moved + {start} && (f, c) in edges;
        assert c in moved + {name} + {start};
      }
    }
  }

  /** The cascade takes exactly the turns of the walk, and changes exactly the labels that move. */
  lemma {:induction false} CascadeIsWalk(nodes: Nodes, now: Nodes, edges: Graph<Label>, stale: set<Label>,
                                         frontier: seq<Label>, seen: set<Label>, moved: set<Label>, start: Label)
    requires WalkReady(nodes, edges, stale, start) && MidRun(nodes, now, moved) && moved <= seen && start !in moved
    requires Pushed(edges, frontier, moved, start)
    ensures var o := Cascade(now, edges, frontier, seen);
            var t := MovingTurns(nodes.Keys, edges, stale, frontier, seen, moved);
            o.popped == t.popped && o.changed == t.moved
    decreases nodes.Keys - seen, |frontier|
  {
    if frontier != [] {
      var name, rest := frontier[0], frontier[1..];
      PushMore(edges, frontier, moved, start);
      if name in seen {
        CascadeIsWalk(nodes, now, edges, stale, rest, seen, moved, start);
      } else if name !in nodes {
        assert nodes.Keys - (seen + {name}) == nodes.Keys - seen;
        CascadeIsWalk(nodes, now, edges, stale, rest, seen + {name}, moved, start);
      } else {
        assert name in nodes.Keys - seen;
        assert name in frontier;
        AcyclicMeans(edges);
        TurnMoves(nodes, now, edges, stale, moved, start, name);
        var row := Rehashed(now, edges, name);
        if row == now[name] {
          CascadeIsWalk(nodes, now, edges, stale, rest, seen + {name}, moved, start);
        } else {
          MoveOne(nodes, now, edges, moved, name);
          CascadeIsWalk(nodes, now[name := row], edges, stale, rest + SortedLabels(DependentsOf(edges, name)),
                        seen + {name}, moved + {name}, start);
        }
      }
    }
  }

  lemma CascadeTurns(nodes: Nodes, edges: Graph<Label>, stale: set<Label>, start: Label)
    requires RowsHashed(nodes) && WalkReady(nodes, edges, stale, start)
    ensures var o, t := CascadeFrom(nodes, edges, start), MovingTurnsFrom(nodes.Keys, edges, stale, start);
            && o.popped == t.popped && o.changed == t.moved
            && (PopsDepsFirst(edges, o) <==> MovesFirst(edges, t))
  {
    var frontier := SortedLabels(DependentsOf(edges, start));
    DirectDependentsDepend(edges, start);
    forall f | f in frontier ensures Caused(edges, {} + {start}, f) {
      assert (f, start) in edges && start in {} + {start};
    }
    CascadeIsWalk(nodes, nodes, edges, stale, frontier, {}, {}, start);
    OrdersAgree(edges, CascadeFrom(nodes, edges, start), MovingTurnsFrom(nodes.Keys, edges, stale, start));
  }

  lemma OrdersAgree(edges: Graph<Label>, o: Outcome, t: Turns)
    requires o.popped == t.popped && o.changed == t.moved
    ensures PopsDepsFirst(edges, o) <==> MovesFirst(edges, t)
  {
    if PopsDepsFirst(edges, o) {
      forall i, j | 0 <= i <= j < |t.popped| && t.popped[j] in t.moved ensures (t.popped[i], t.popped[j]) !in edges {
        assert DepsDoneBy(edges, o, i);
      }
    }
  }
}
