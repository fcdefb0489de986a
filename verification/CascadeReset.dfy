/** Completeness of the cascade: a statement change reaches every transitive dependent,
    in an order that the graph alone determines. */
module CascadeReset {
  import opened MerkleCascade
  import opened Graphs
  import opened Labels
  import opened Store

  ghost predicate Caused(edges: Graph<Label>, causes: set<Label>, f: Label) {
    exists c :: c in causes && (f, c) in edges
  }

  /** Every popped label was pushed by a dependency that had changed before its turn. */
  lemma {:induction false} PushedByChange(nodes: Nodes, edges: Graph<Label>, frontier: seq<Label>, seen: set<Label>,
                                          causes: set<Label>, i: nat)
    returns (q: Label)
    requires RowsHashed(nodes)
    requires forall f :: f in frontier ==> Caused(edges, causes, f)
    requires i < |Cascade(nodes, edges, frontier, seen).popped|
    ensures var o := Cascade(nodes, edges, frontier, seen);
            (o.popped[i], q) in edges && (q in causes || (q in o.changed && q in o.popped[..i]))
    decreases nodes.Keys - seen, |frontier|
  {
    var name, rest := frontier[0], frontier[1..];
    assert frontier == [name] + rest;
    if name in seen {
      q := PushedByChange(nodes, edges, rest, seen, causes, i);
    } else if name !in nodes {
      assert nodes.Keys - (seen + {name}) == nodes.Keys - seen;
      q := PushedByChange(nodes, edges, rest, seen + {name}, causes, i);
    } else {
      RehashedResets(nodes, edges, name);
      var row := Rehashed(nodes, edges, name);
      assert name in nodes.Keys - seen;
      if i == 0 {
        assert Caused(edges, causes, name);
        q :| q in causes && (name, q) in edges;
      } else if row == nodes[name] {
        var o := Cascade(nodes, edges, rest, seen + {name});
        q := PushedByChange(nodes, edges, rest, seen + {name}, causes, i - 1);
        assert ([name] + o.popped)[..i] == [name] + o.popped[..i - 1];
      } else {
        assert nodes[name := row].Keys == nodes.Keys;
        var pushed := SortedLabels(DependentsOf(edges, name));
        forall f | f in rest + pushed ensures Caused(edges, causes + {name}, f) {
          if f in pushed {
            assert name in causes + {name} && (f, name) in edges;
          } else {
            assert f in frontier;
            var c :| c in causes && (f, c) in edges;
            assert c in causes + {name};
          }
        }
        var o := Cascade(nodes[name := row], edges, rest + pushed, seen + {name});
        q := PushedByChange(nodes[name := row], edges, rest + pushed, seen + {name}, causes + {name}, i - 1);
        assert ([name] + o.popped)[..i] == [name] + o.popped[..i - 1];
      }
    }
  }

  /** What a statement change of start hands to the cascade: all that has happened since is a new
      row for start and nodes that did not exist. */
  ghost predicate StatementChange(before: Nodes, prior: Graph<Label>, nodes: Nodes, edges: Graph<Label>, start: Label) {
    && RowsHashed(nodes) && EdgesInside(nodes, edges) && Acyclic(edges)
    && EdgesInside(before, prior)
    && start in before && start in nodes
    && nodes[start].statementHash != before[start].statementHash
    && (forall x :: x in before && x != start ==> x in nodes && nodes[x] == before[x])
    && (forall e: (Label, Label) :: e.0 in before && e.0 != start ==> (e in prior <==> e in edges))
  }

  lemma StoredDepHash(before: Nodes, prior: Graph<Label>, nodes: Nodes, edges: Graph<Label>, start: Label, x: Label,
                      q: Label)
    requires StatementChange(before, prior, nodes, edges, start)
    requires x in before && x != start && (x, q) in edges && CurrentAt(before, prior, x)
    ensures q in before && nodes[x].statementHash.StatementHash? && q in nodes[x].statementHash.deps
    ensures nodes[x].statementHash.deps[q] == before[q].statementHash
  {
    assert (x, q) in prior;
    assert CarriesHash(before[x].statementHash, q, before[q].statementHash);
  }

  lemma StartNotPopped(nodes: Nodes, edges: Graph<Label>, start: Label)
    requires RowsHashed(nodes) && Acyclic(edges)
    ensures start !in CascadeFrom(nodes, edges, start).popped
  {
    CascadeFromPops(nodes, edges, start);
    AcyclicMeans(edges);
  }

  lemma EarlierIsNotLater(q: Label, order: seq<Label>, i: nat)
    requires Distinct(order) && i <= |order|
    requires q in order ==> q in order[..i]
    ensures q !in order[i..]
  {
  }

  /** A popped node recomputed with one dependency hash that differs from the stored one changes. */
  lemma DifferentDepChanges(before: Nodes, nodes: Nodes, edges: Graph<Label>, start: Label, i: nat, q: Label)
    requires RowsHashed(nodes) && q in before
    requires var o := CascadeFrom(nodes, edges, start);
             && i < |o.popped| && o.popped[i] in nodes && (o.popped[i], q) in edges && q in nodes && q !in o.popped[i..]
             && q in o.nodes && o.nodes[q].statementHash != before[q].statementHash
    requires var stored := nodes[CascadeFrom(nodes, edges, start).popped[i]].statementHash;
             stored.StatementHash? && q in stored.deps && stored.deps[q] == before[q].statementHash
    ensures var o := CascadeFrom(nodes, edges, start); o.popped[i] in o.changed
  {
    var frontier := SortedLabels(DependentsOf(edges, start));
    var o := CascadeFrom(nodes, edges, start);
    CascadeShape(nodes, edges, frontier, {});
    CascadeSettles(nodes, edges, frontier, {}, i);
    assert q in DepsOf(edges, o.popped[i]);
    assert HashesWhenPopped(nodes, o.nodes, edges, o.popped, i)[q] == o.nodes[q].statementHash;
  }

  /** Every turn is due to start or to a node that changed before and has no turn left. */
  lemma PushedByStart(nodes: Nodes, edges: Graph<Label>, start: Label, i: nat) returns (q: Label)
    requires RowsHashed(nodes) && Acyclic(edges) && start in nodes
    requires i < |CascadeFrom(nodes, edges, start).popped|
    ensures var o := CascadeFrom(nodes, edges, start);
            && (q == start || q in o.changed) && (o.popped[i], q) in edges && q !in o.popped[i..]
  {
    var frontier := SortedLabels(DependentsOf(edges, start));
    var o := CascadeFrom(nodes, edges, start);
    StartNotPopped(nodes, edges, start);
    forall f | f in frontier ensures Caused(edges, {start}, f) {
      assert start in {start} && (f, start) in edges;
    }
    q := PushedByChange(nodes, edges, frontier, {}, {start}, i);
    CascadeShape(nodes, edges, frontier, {});
    EarlierIsNotLater(q, o.popped, i);
  }

  /** start and every changed node that was there before end with another hash. */
  lemma CauseMoved(before: Nodes, prior: Graph<Label>, nodes: Nodes, edges: Graph<Label>, start: Label, q: Label)
    requires StatementChange(before, prior, nodes, edges, start) && q in before
    requires q == start || q in CascadeFrom(nodes, edges, start).changed
    ensures var o := CascadeFrom(nodes, edges, start);
            q in nodes && q in o.nodes && o.nodes[q].statementHash != before[q].statementHash
  {
    if q == start {
      StartRowKept(nodes, edges, start);
    } else {
      ChangedReset(nodes, edges, start, q);
      assert nodes[q] == before[q];
    }
  }

  lemma StartRowKept(nodes: Nodes, edges: Graph<Label>, start: Label)
    requires RowsHashed(nodes) && Acyclic(edges) && start in nodes
    ensures var o := CascadeFrom(nodes, edges, start); start in o.nodes && o.nodes[start] == nodes[start]
  {
    CascadeShape(nodes, edges, SortedLabels(DependentsOf(edges, start)), {});
    StartNotPopped(nodes, edges, start);
  }

  lemma ChangedReset(nodes: Nodes, edges: Graph<Label>, start: Label, q: Label)
    requires RowsHashed(nodes) && q in CascadeFrom(nodes, edges, start).changed
    ensures var o := CascadeFrom(nodes, edges, start);
            q in nodes && q in o.nodes && o.nodes[q].statementHash != nodes[q].statementHash
  {
    CascadeShape(nodes, edges, SortedLabels(DependentsOf(edges, start)), {});
    var o := CascadeFrom(nodes, edges, start);
    assert ResetRow(nodes[q], o.nodes[q]);
  }

  /** With injective hashes a pre-existing node that gets a turn changes, if its edges were current. */
  lemma PoppedChanges(before: Nodes, prior: Graph<Label>, nodes: Nodes, edges: Graph<Label>, start: Label, i: nat)
    requires StatementChange(before, prior, nodes, edges, start)
    requires i < |CascadeFrom(nodes, edges, start).popped|
    requires var x := CascadeFrom(nodes, edges, start).popped[i]; x in before && CurrentAt(before, prior, x)
    ensures var o := CascadeFrom(nodes, edges, start); o.popped[i] in o.changed
  {
    var x := CascadeFrom(nodes, edges, start).popped[i];
    var q := PushedByStart(nodes, edges, start, i);
    StartNotPopped(nodes, edges, start);
    StoredDepHash(before, prior, nodes, edges, start, x, q);
    CauseMoved(before, prior, nodes, edges, start, q);
    DifferentDepChanges(before, nodes, edges, start, i, q);
  }

  /** Reaching start from a pre-existing node is the same in the graph before and after. */
  lemma ConeUnchanged(before: Nodes, prior: Graph<Label>, nodes: Nodes, edges: Graph<Label>, start: Label, x: Label)
    requires StatementChange(before, prior, nodes, edges, start)
    requires x in before && x != start
    ensures DependsOn(prior, x, start) <==> DependsOn(edges, x, start)
  {
    var region := before.Keys;
    if DependsOn(prior, x, start) {
      var w :| WalkBetween(prior, w, x, start) && |w| >= 2;
      WalkIntoAvoids(prior, edges, start, region, w);
      ReachesOther(edges, x, start);
    }
    if DependsOn(edges, x, start) {
      var w :| WalkBetween(edges, w, x, start) && |w| >= 2;
      forall e | e in edges && e.0 in region && e.0 != start ensures e in prior && e.1 in region {
      }
      WalkIntoAvoids(edges, prior, start, region, w);
      ReachesOther(prior, x, start);
    }
  }

  /** The edges that leave a node whose edges are all current. */
  ghost function CurrentPart(nodes: Nodes, edges: Graph<Label>): Graph<Label> {
    set e | e in edges && CurrentAt(nodes, edges, e.0)
  }

  lemma AllCurrentPart(nodes: Nodes, edges: Graph<Label>)
    requires EdgesCurrent(nodes, edges) && EdgesInside(nodes, edges)
    ensures CurrentPart(nodes, edges) == edges
  {
    forall e | e in edges ensures CurrentAt(nodes, edges, e.0) {
    }
  }

  /** The changed nodes and start together are closed under pre-existing dependents with current edges. */
  lemma ChangesSpread(before: Nodes, prior: Graph<Label>, nodes: Nodes, edges: Graph<Label>, start: Label,
                      e: (Label, Label))
    requires StatementChange(before, prior, nodes, edges, start)
    requires e in CurrentPart(before, prior) && e.0 != start
    requires e.1 == start || e.1 in CascadeFrom(nodes, edges, start).changed
    ensures e.0 in CascadeFrom(nodes, edges, start).changed
  {
    var o := CascadeFrom(nodes, edges, start);
    assert e.0 in before && e in edges && e.0 in nodes;
    ChangePushes(nodes, edges, start, e);
    var i :| 0 <= i < |o.popped| && o.popped[i] == e.0;
    PoppedChanges(before, prior, nodes, edges, start, i);
  }

  /** Dependents of start and of changed nodes get their turn. */
  lemma ChangePushes(nodes: Nodes, edges: Graph<Label>, start: Label, e: (Label, Label))
    requires RowsHashed(nodes) && e in edges && e.0 in nodes
    requires e.1 == start || e.1 in CascadeFrom(nodes, edges, start).changed
    ensures e.0 in CascadeFrom(nodes, edges, start).popped
  {
    CascadeShape(nodes, edges, SortedLabels(DependentsOf(edges, start)), {});
    if e.1 == start {
      assert e.0 in DependentsOf(edges, start);
    }
  }

  lemma DependentsChange(before: Nodes, prior: Graph<Label>, nodes: Nodes, edges: Graph<Label>, start: Label, x: Label)
    requires StatementChange(before, prior, nodes, edges, start)
    requires x != start && DependsOn(CurrentPart(before, prior), x, start)
    ensures x in CascadeFrom(nodes, edges, start).changed
  {
    var reached := CascadeFrom(nodes, edges, start).changed + {start};
    var current := CurrentPart(before, prior);
    var cone := set e | e in current && e.0 != start;
    var w :| WalkBetween(current, w, x, start) && |w| >= 2;
    WalkIntoAvoids(current, cone, start, Heads(current) + {x}, w);
    forall e | e in cone && e.1 in reached ensures e.0 in reached {
      ChangesSpread(before, prior, nodes, edges, start, e);
    }
    ClosedUnderDependents(cone, reached, x, start);
  }

  /** Reset completeness, in any store: a pre-existing node that depends on start through nodes
      with current edges loses its verdicts, one that does not depend on start keeps its row, and
      no row changes in any other way. */
  lemma CascadeResets(before: Nodes, prior: Graph<Label>, nodes: Nodes, edges: Graph<Label>, start: Label, x: Label)
    requires StatementChange(before, prior, nodes, edges, start)
    requires x in before && x != start
    ensures var o := CascadeFrom(nodes, edges, start);
            && x in o.nodes
            && (DependsOn(CurrentPart(before, prior), x, start) ==> x in o.changed && ResetRow(before[x], o.nodes[x]))
            && (!DependsOn(prior, x, start) ==> x !in o.popped && o.nodes[x] == before[x])
            && (o.nodes[x] == before[x] || ResetRow(before[x], o.nodes[x]))
    ensures EdgesCurrent(before, prior) && DependsOn(prior, x, start) ==> x in CascadeFrom(nodes, edges, start).changed
  {
    CascadeShape(nodes, edges, SortedLabels(DependentsOf(edges, start)), {});
    CascadeFromPops(nodes, edges, start);
    ConeUnchanged(before, prior, nodes, edges, start, x);
    if DependsOn(CurrentPart(before, prior), x, start) {
      DependentsChange(before, prior, nodes, edges, start, x);
    }
    if EdgesCurrent(before, prior) {
      AllCurrentPart(before, prior);
    }
  }

  /** The order of turns when every popped node changes: a breadth-first walk over dependents. */
  function TurnOrder(universe: set<Label>, edges: Graph<Label>, frontier: seq<Label>, seen: set<Label>): seq<Label>
    decreases universe - seen, |frontier|
  {
    if frontier == [] then []
    else
      var name, rest := frontier[0], frontier[1..];
      if name in seen then TurnOrder(universe, edges, rest, seen)
      else if name !in universe then
        assert universe - (seen + {name}) == universe - seen;
        TurnOrder(universe, edges, rest, seen + {name})
      else
        assert name in universe - seen;
        [name] + TurnOrder(universe, edges, rest + SortedLabels(DependentsOf(edges, name)), seen + {name})
  }

  ghost predicate AllChange(o: Outcome) {
    forall x :: x in o.popped ==> x in o.changed
  }

  lemma {:induction false} PopsInTurnOrder(nodes: Nodes, edges: Graph<Label>, frontier: seq<Label>, seen: set<Label>)
    requires AllChange(Cascade(nodes, edges, frontier, seen))
    requires RowsHashed(nodes)
    ensures Cascade(nodes, edges, frontier, seen).popped == TurnOrder(nodes.Keys, edges, frontier, seen)
    decreases nodes.Keys - seen, |frontier|
  {
    if frontier != [] {
      var name, rest := frontier[0], frontier[1..];
      var o := Cascade(nodes, edges, frontier, seen);
      if name in seen {
        PopsInTurnOrder(nodes, edges, rest, seen);
      } else if name !in nodes {
        assert nodes.Keys - (seen + {name}) == nodes.Keys - seen;
        PopsInTurnOrder(nodes, edges, rest, seen + {name});
      } else {
        RehashedResets(nodes, edges, name);
        var row := Rehashed(nodes, edges, name);
        assert name in nodes.Keys - seen;
        if row == nodes[name] {
          CascadeShape(nodes, edges, rest, seen + {name});
          assert false;
        } else {
          var frontier' := rest + SortedLabels(DependentsOf(edges, name));
          assert nodes[name := row].Keys == nodes.Keys;
          CascadeShape(nodes[name := row], edges, frontier', seen + {name});
          var o' := Cascade(nodes[name := row], edges, frontier', seen + {name});
          assert o.popped == [name] + o'.popped && o.changed == o'.changed + {name};
          assert AllChange(o') by {
            forall x | x in o'.popped ensures x in o'.changed {
              assert x in o.popped;
            }
          }
          PopsInTurnOrder(nodes[name := row], edges, frontier', seen + {name});
        }
      }
    }
  }

  function TurnsFrom(universe: set<Label>, edges: Graph<Label>, start: Label): seq<Label> {
    TurnOrder(universe, edges, SortedLabels(DependentsOf(edges, start)), {})
  }

  /** No entry of the order depends on itself or on a later entry. */
  ghost predicate DepsFirst(edges: Graph<Label>, order: seq<Label>) {
    forall i, j :: 0 <= i <= j < |order| ==> (order[i], order[j]) !in edges
  }

  lemma AllPoppedChange(before: Nodes, prior: Graph<Label>, nodes: Nodes, edges: Graph<Label>, start: Label)
    requires StatementChange(before, prior, nodes, edges, start) && EdgesCurrent(before, prior)
    requires nodes.Keys == before.Keys
    ensures AllChange(CascadeFrom(nodes, edges, start))
  {
    var o := CascadeFrom(nodes, edges, start);
    forall i | 0 <= i < |o.popped| ensures o.popped[i] in o.changed {
      PoppedExists(nodes, edges, start, i);
      PoppedChanges(before, prior, nodes, edges, start, i);
    }
  }

  lemma PoppedExists(nodes: Nodes, edges: Graph<Label>, start: Label, i: nat)
    requires RowsHashed(nodes) && i < |CascadeFrom(nodes, edges, start).popped|
    ensures CascadeFrom(nodes, edges, start).popped[i] in nodes
  {
    CascadeShape(nodes, edges, SortedLabels(DependentsOf(edges, start)), {});
  }

  /** When no node appeared together with the change, the turns are known from the graph. */
  lemma PopsDepsFirstFromGraph(before: Nodes, prior: Graph<Label>, nodes: Nodes, edges: Graph<Label>, start: Label)
    requires StatementChange(before, prior, nodes, edges, start) && EdgesCurrent(before, prior)
    requires nodes.Keys == before.Keys
    ensures CascadeFrom(nodes, edges, start).popped == TurnsFrom(nodes.Keys, edges, start)
    ensures PopsDepsFirst(edges, CascadeFrom(nodes, edges, start))
       <==> DepsFirst(edges, TurnsFrom(nodes.Keys, edges, start))
  {
    var o := CascadeFrom(nodes, edges, start);
    AllPoppedChange(before, prior, nodes, edges, start);
    PopsInTurnOrder(nodes, edges, SortedLabels(DependentsOf(edges, start)), {});
    AllChangeOrder(edges, o);
  }

  lemma AllChangeOrder(edges: Graph<Label>, o: Outcome)
    requires AllChange(o)
    ensures PopsDepsFirst(edges, o) <==> DepsFirst(edges, o.popped)
  {
    if PopsDepsFirst(edges, o) {
      forall i, j | 0 <= i <= j < |o.popped| ensures (o.popped[i], o.popped[j]) !in edges {
        assert DepsDoneBy(edges, o, i);
      }
    }
  }

  /** Inside the cone of start every edge climbs exactly one level: all dependency paths from
      a node down to start have the same length. */
  ghost predicate Levelled(edges: Graph<Label>, start: Label, level: Label -> nat) {
    forall e :: e in edges && (e.1 == start || DependsOn(edges, e.1, start)) ==> level(e.0) == level(e.1) + 1
  }

  ghost predicate Rising(order: seq<Label>, level: Label -> nat) {
    forall i, j :: 0 <= i <= j < |order| ==> level(order[i]) <= level(order[j])
  }

  /** A frontier as breadth-first search keeps it: rising, over at most two levels, inside the cone. */
  ghost predicate TwoLevels(edges: Graph<Label>, frontier: seq<Label>, start: Label, level: Label -> nat) {
    && Rising(frontier, level)
    && forall x :: x in frontier ==>
                     DependsOn(edges, x, start) && level(frontier[0]) <= level(x) <= level(frontier[0]) + 1
  }

  lemma TwoLevelsRest(edges: Graph<Label>, frontier: seq<Label>, start: Label, level: Label -> nat)
    requires frontier != [] && TwoLevels(edges, frontier, start, level)
    ensures TwoLevels(edges, frontier[1..], start, level)
    ensures frontier[1..] != [] ==> level(frontier[0]) <= level(frontier[1])
  {
    var rest := frontier[1..];
    forall i | 0 <= i < |rest|
      ensures level(rest[0]) <= level(rest[i]) <= level(rest[0]) + 1 && DependsOn(edges, rest[i], start) {
      assert rest[i] == frontier[i + 1] && rest[0] == frontier[1];
    }
  }

  lemma TwoLevelsJoin(edges: Graph<Label>, rest: seq<Label>, pushed: seq<Label>, start: Label, level: Label -> nat,
                      k: nat)
    requires TwoLevels(edges, rest, start, level) && forall x :: x in rest ==> k <= level(x) <= k + 1
    requires forall x :: x in pushed ==> DependsOn(edges, x, start) && level(x) == k + 1
    ensures TwoLevels(edges, rest + pushed, start, level)
  {
    RisingJoin(rest, pushed, level, k);
    assert forall i :: 0 <= i < |rest| ==> rest[i] in rest;
    assert forall i :: 0 <= i < |pushed| ==> pushed[i] in pushed;
  }

  lemma RisingJoin(rest: seq<Label>, pushed: seq<Label>, level: Label -> nat, k: nat)
    requires Rising(rest, level) && forall x :: x in rest ==> level(x) <= k + 1
    requires forall x :: x in pushed ==> level(x) == k + 1
    ensures Rising(rest + pushed, level)
  {
    assert forall i :: 0 <= i < |rest| ==> rest[i] in rest;
    assert forall i :: 0 <= i < |pushed| ==> pushed[i] in pushed;
  }

  lemma TwoLevelsPush(edges: Graph<Label>, frontier: seq<Label>, start: Label, level: Label -> nat)
    requires frontier != [] && TwoLevels(edges, frontier, start, level) && Levelled(edges, start, level)
    ensures TwoLevels(edges, frontier[1..] + SortedLabels(DependentsOf(edges, frontier[0])), start, level)
    ensures forall x :: x in frontier[1..] + SortedLabels(DependentsOf(edges, frontier[0])) ==>
                          level(frontier[0]) <= level(x)
  {
    var name, rest := frontier[0], frontier[1..];
    var pushed := SortedLabels(DependentsOf(edges, name));
    TwoLevelsRest(edges, frontier, start, level);
    forall x | x in pushed ensures DependsOn(edges, x, start) && level(x) == level(name) + 1 {
      PushedIsOneUp(edges, name, start, level, x);
    }
    forall x | x in rest ensures level(name) <= level(x) <= level(name) + 1 {
      assert x in frontier;
    }
    TwoLevelsJoin(edges, rest, pushed, start, level, level(name));
  }

  lemma PushedIsOneUp(edges: Graph<Label>, name: Label, start: Label, level: Label -> nat, x: Label)
    requires Levelled(edges, start, level) && DependsOn(edges, name, start) && (x, name) in edges
    ensures DependsOn(edges, x, start) && level(x) == level(name) + 1
  {
    ReachesEdge(edges, x, name);
    DependsOnReaches(edges, x, name, start);
  }

  lemma RisingCons(x: Label, q: seq<Label>, level: Label -> nat)
    requires Rising(q, level) && forall y :: y in q ==> level(x) <= level(y)
    ensures Rising([x] + q, level)
  {
    forall i, j | 0 <= i <= j < |[x] + q| ensures level(([x] + q)[i]) <= level(([x] + q)[j]) {
      if i == 0 && j > 0 {
        assert q[j - 1] in q;
      }
    }
  }

  lemma {:induction false} TurnsRise(universe: set<Label>, edges: Graph<Label>, frontier: seq<Label>, seen: set<Label>,
                                     start: Label, level: Label -> nat)
    requires Levelled(edges, start, level) && TwoLevels(edges, frontier, start, level)
    ensures Rising(TurnOrder(universe, edges, frontier, seen), level)
    ensures forall x :: x in TurnOrder(universe, edges, frontier, seen) ==>
                          DependsOn(edges, x, start) && frontier != [] && level(frontier[0]) <= level(x)
    decreases universe - seen, |frontier|
  {
    if frontier != [] {
      var name, rest := frontier[0], frontier[1..];
      TwoLevelsRest(edges, frontier, start, level);
      if name in seen {
        TurnsRise(universe, edges, rest, seen, start, level);
      } else if name !in universe {
        assert universe - (seen + {name}) == universe - seen;
        TurnsRise(universe, edges, rest, seen + {name}, start, level);
      } else {
        assert name in universe - seen;
        TwoLevelsPush(edges, frontier, start, level);
        var later := TurnOrder(universe, edges, rest + SortedLabels(DependentsOf(edges, name)), seen + {name});
        TurnsRise(universe, edges, rest + SortedLabels(DependentsOf(edges, name)), seen + {name}, start, level);
        RisingCons(name, later, level);
      }
    }
  }

  /** A sufficient condition for deps-first turns: equal path lengths below every node. */
  lemma LevelledTurnsDepsFirst(universe: set<Label>, edges: Graph<Label>, start: Label, level: Label -> nat)
    requires Levelled(edges, start, level)
    ensures DepsFirst(edges, TurnsFrom(universe, edges, start))
  {
    var frontier := SortedLabels(DependentsOf(edges, start));
    var order := TurnsFrom(universe, edges, start);
    DirectDependentsDepend(edges, start);
    forall x | x in frontier ensures (x, start) in edges && level(x) == level(start) + 1 {
    }
    TurnsRise(universe, edges, frontier, {}, start, level);
    forall i, j | 0 <= i <= j < |order| ensures (order[i], order[j]) !in edges {
      assert order[j] in order;
    }
  }

  // ---- the cascade does not always restore coherence ----

  /** b cites s directly and through z. */
  function Diamond(s: Label, b: Label, z: Label): Graph<Label> {
    {(b, s), (b, z), (z, s)}
  }

  lemma LastTurn(universe: set<Label>, g: Graph<Label>, name: Label, seen: set<Label>, d: Label)
    requires name in universe && name !in seen && DependentsOf(g, name) == {d} && d in seen
    ensures TurnOrder(universe, g, [name], seen) == [name]
  {
    SortedSingle(DependentsOf(g, name), d);
    var rest: seq<Label> := [name][1..] + SortedLabels(DependentsOf(g, name));
    assert rest[0] == d && rest[1..] == [];
    assert TurnOrder(universe, g, rest, seen + {name}) == [];
  }

  lemma DiamondDependents(s: Label, b: Label, z: Label)
    requires s != b && s != z && b != z
    ensures DependentsOf(Diamond(s, b, z), s) == {b, z}
    ensures DependentsOf(Diamond(s, b, z), b) == {}
    ensures DependentsOf(Diamond(s, b, z), z) == {b}
  {
    assert (b, z) in Diamond(s, b, z) && (b, s) in Diamond(s, b, z) && (z, s) in Diamond(s, b, z);
  }

  /** When b sorts before z, breadth-first search gives b its turn before its dependency z. */
  lemma DiamondTurns(s: Label, b: Label, z: Label)
    requires s != b && s != z && b != z && Leq(b, z)
    ensures TurnsFrom({s, b, z}, Diamond(s, b, z), s) == [b, z]
    ensures !DepsFirst(Diamond(s, b, z), TurnsFrom({s, b, z}, Diamond(s, b, z), s))
  {
    var universe, g := {s, b, z}, Diamond(s, b, z);
    DiamondDependents(s, b, z);
    SortedPair(DependentsOf(g, s), b, z);
    LastTurn(universe, g, z, {b}, b);
    var order := [b] + TurnOrder(universe, g, [z], {b});
    assert [b, z][1..] + SortedLabels(DependentsOf(g, b)) == [z];
    assert TurnOrder(universe, g, [b, z], {}) == order;
    assert (order[0], order[1]) in g;
  }

  lemma SortedPair(s: set<Label>, a: Label, b: Label)
    requires s == {a, b} && a != b && Leq(a, b)
    ensures SortedLabels(s) == [a, b]
  {
    var q := SortedLabels(s);
    assert q[0] in q && q[1] in q;
    if q[0] == b {
      LeqAntisymmetric(a, b);
    }
  }

  lemma SortedSingle(s: set<Label>, a: Label)
    requires s == {a}
    ensures SortedLabels(s) == [a]
  {
    var q := SortedLabels(s);
    assert q[0] in q;
  }
}
