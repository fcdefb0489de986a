/** Librarian's stateful view of the store (common/kb/kuzu_backend.py). Kuzu itself is
    reduced to rows, an edge set and transactions that commit or roll back as a whole. */
module Backend {
  import opened Graphs
  import opened Labels
  import opened Search
  import opened Store

  function AdjacencyOf(edges: Graph<Label>): Adjacency<Label> {
    map u | u in (set e | e in edges :: e.0) :: SortedLabels(DepsOf(edges, u))
  }

  lemma AdjacencyLists(edges: Graph<Label>)
    ensures Lists(AdjacencyOf(edges), edges)
  {
    forall e: (Label, Label) ensures e in edges <==> e.1 in Neighbours(AdjacencyOf(edges), e.0) {
      if e in edges {
        assert e.1 in DepsOf(edges, e.0);
      }
    }
  }

  class KuzuBackend {
    var nodes: Nodes
    var edges: Graph<Label>
    var applied: map<EventId, AppliedEvent>
    var saved: Option<Db>  // the committed state while a transaction is open

    ghost function State(): Db
      reads this
    {
      Db(nodes, edges, applied)
    }

    /** What a crash leaves behind: an open transaction is lost. */
    ghost function Durable(): Db
      reads this
    {
      if saved.Some? then saved.value else State()
    }

    constructor ()
      ensures State() == EMPTY_DB && saved == None
    {
      nodes, edges, applied, saved := map[], {}, map[], None;
    }

    method Begin()
      requires saved == None
      modifies this`saved
      ensures saved == Some(State()) && Durable() == old(Durable())
    {
      saved := Some(Db(nodes, edges, applied));
    }

    method Commit()
      requires saved.Some?
      modifies this`saved
      ensures saved == None && Durable() == State()
    {
      saved := None;
    }

    method Rollback()
      requires saved.Some?
      modifies this
      ensures saved == None && State() == old(saved.value) && Durable() == old(Durable())
    {
      nodes, edges, applied := saved.value.nodes, saved.value.edges, saved.value.applied;
      saved := None;
    }

    /** Four deletes outside any transaction; durable lists what a crash leaves behind before the
        first, between any two, and after the last. */
    method Wipe() returns (ghost durable: seq<Db>)
      requires saved == None
      modifies this
      ensures State() == EMPTY_DB && saved == None
      ensures |durable| == WIPE_DELETES + 1
      ensures forall n :: 0 <= n <= WIPE_DELETES ==> durable[n] == Wiped(old(State()), n)
    {
      durable := [Durable()];
      edges := {};
      durable := durable + [Durable()];
      nodes := map[];
      durable := durable + [Durable()];
      applied := map[];
      durable := durable + [Durable()];
      // the delete of ProjectionState
      durable := durable + [Durable()];
    }

    method NodeByLabel(name: Label) returns (row: Option<Row>)
      ensures row == if name in nodes then Some(nodes[name]) else None
    {
      row := if name in nodes then Some(nodes[name]) else None;
    }

    method DependenciesOf(name: Label) returns (names: seq<Label>)
      ensures names == SortedLabels(DepsOf(edges, name))
    {
      names := SortedLabels(DepsOf(edges, name));
    }

    method DependentsOf(name: Label) returns (names: seq<Label>)
      ensures names == SortedLabels(Store.DependentsOf(edges, name))
    {
      names := SortedLabels(Store.DependentsOf(edges, name));
    }

    /** Deletes the edges leaving name, then creates one per ref that names a node. */
    method SetDependencies(name: Label, refs: seq<Label>)
      requires name in nodes
      modifies this`edges
      ensures edges == Rewire(old(edges), name, Resolved(nodes, refs))
    {
      edges := set e | e in edges && e.0 != name;
      ghost var kept := edges;
      var i := 0;
      while i < |refs|
        invariant 0 <= i <= |refs|
        invariant edges == kept + OutEdges(name, Resolved(nodes, refs[..i]))
      {
        assert Resolved(nodes, refs[..i + 1])
            == Resolved(nodes, refs[..i]) + if refs[i] in nodes then {refs[i]} else {};
        if refs[i] in nodes {
          edges := edges + {(name, refs[i])};
        }
        i := i + 1;
      }
      TakeAll(refs);
    }

    method CreateNode(name: Label, row: Row)
      requires name !in nodes
      modifies this`nodes, this`edges
      ensures State() == PutNode(old(State()), name, row)
    {
      nodes := nodes[name := row];
      SetDependencies(name, Refs(row));
    }

    method UpdateNode(name: Label, row: Row)
      requires name in nodes
      modifies this`nodes, this`edges
      ensures State() == PutNode(old(State()), name, row)
    {
      nodes := nodes[name := row];
      SetDependencies(name, Refs(row));
    }

    /** SET of some columns on an existing row; row carries the other columns unchanged. */
    method SetNodeFields(name: Label, row: Row)
      requires name in nodes
      modifies this`nodes
      ensures nodes == old(nodes)[name := row]
    {
      nodes := nodes[name := row];
    }

    method FindApplied(id: EventId) returns (recorded: Option<AppliedEvent>)
      ensures recorded == if id in applied then Some(applied[id]) else None
    {
      recorded := if id in applied then Some(applied[id]) else None;
    }

    method RecordApplied(id: EventId, record: AppliedEvent)
      requires id !in applied
      modifies this`applied
      ensures applied == old(applied)[id := record]
    {
      applied := applied[id := record];
    }

    /** The check before a node is rewritten: a reported path is a closed walk through the
        new edges, and no path is reported exactly when the rewritten graph stays acyclic. */
    method WouldIntroduceCycle(name: Label, deps: seq<Label>) returns (cycle: Option<seq<Label>>)
      requires Acyclic(edges)
      ensures cycle.None? <==> Acyclic(Rewire(edges, name, Elements(deps)))
      ensures cycle.Some? ==> ClosedWalk(edges + OutEdges(name, Elements(deps)), cycle.value) && cycle.value[0] == name
    {
      ghost var g := edges;
      RewireAcyclic(g, name, Elements(deps));
      var i := 0;
      while i < |deps|
        invariant 0 <= i <= |deps| && name !in deps[..i]
      {
        if deps[i] == name {
          ReachesRefl(g, name);
          assert name in Elements(deps);
          return Some([name, name]);
        }
        TakeStep(deps, i);
        i := i + 1;
      }
      var adjacency := AdjacencyOf(edges);
      AdjacencyLists(edges);
      i := 0;
      while i < |deps|
        invariant 0 <= i <= |deps|
        invariant forall d :: d in deps[..i] ==> !Reaches(g, d, name)
      {
        var path := BfsPath(g, adjacency, deps[i], name);
        if path.Some? {
          assert deps[i] in Elements(deps);
          CloseWalk(g, name, Elements(deps), deps[i], path.value);
          return Some([name] + path.value);
        }
        TakeStep(deps, i);
        i := i + 1;
      }
      TakeAll(deps);
      return None;
    }
  }

  lemma CloseWalk(g: Graph<Label>, name: Label, deps: set<Label>, d: Label, w: seq<Label>)
    requires WalkBetween(g, w, d, name) && d in deps
    ensures ClosedWalk(g + OutEdges(name, deps), [name] + w)
  {
    var c := [name] + w;
    forall i | 0 <= i < |c| - 1 ensures (c[i], c[i + 1]) in g + OutEdges(name, deps) {
      if i > 0 {
        assert (w[i - 1], w[i]) in g;
      }
    }
  }
}
