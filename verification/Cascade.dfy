/** The Merkle cascade (librarian/projector.py, _cascade_statement_change): what one run
    changes, in which order, and when it leaves the hashes coherent. */
module MerkleCascade {
  import opened Graphs
  import opened Hashing
  import opened Labels
  import opened Store

  datatype Outcome = Outcome(nodes: Nodes, popped: seq<Label>, changed: set<Label>)

  /** The row of name after recomputing its hashes from its current dependencies. */
  function Rehashed(nodes: Nodes, edges: Graph<Label>, name: Label): Row
    requires name in nodes
  {
    var row := nodes[name];
    var sh := StatementHash(name, row.kind, row.statement, EdgeDeps(nodes, edges, name));
    var vh := VerificationHash(sh, row.proof);
    var newStatement, newVerification := sh != row.statementHash, vh != row.verificationHash;
    row.(statementHash := sh,
    verificationHash := vh,
    repairCount := if newStatement then 0 else row.repairCount,
    hint := if newVerification then "" else row.hint,
    report := if newVerification then "" else row.report,
    passCount := if newVerification then InitialCount(row.kind, row.proof) else row.passCount)
  }

  /** The work list run: a label is popped at most once, and only a changed node
      pushes its dependents. */
  function Cascade(nodes: Nodes, edges: Graph<Label>, frontier: seq<Label>, seen: set<Label>): Outcome
    decreases nodes.Keys - seen, |frontier|
  {
    if frontier == [] then Outcome(nodes, [], {})
    else
      var name, rest := frontier[0], frontier[1..];
      if name in seen then Cascade(nodes, edges, rest, seen)
      else if name !in nodes then
        assert nodes.Keys - (seen + {name}) == nodes.Keys - seen;
        Cascade(nodes, edges, rest, seen + {name})
      else
        var row := Rehashed(nodes, edges, name);
        assert name in nodes.Keys - seen;
        if row == nodes[name] then
          var o := Cascade(nodes, edges, rest, seen + {name});
          o.(popped := [name] + o.popped)
        else
          assert nodes[name := row].Keys == nodes.Keys;
          var o := Cascade(nodes[name := row], edges, rest + SortedLabels(DependentsOf(edges, name)), seen + {name});
          Outcome(o.nodes, [name] + o.popped, o.changed + {name})
  }

  function CascadeFrom(nodes: Nodes, edges: Graph<Label>, start: Label): Outcome {
    Cascade(nodes, edges, SortedLabels(DependentsOf(edges, start)), {})
  }

  ghost predicate RowsHashed(nodes: Nodes) {
    forall x :: x in nodes ==> nodes[x].verificationHash == VerificationHash(nodes[x].statementHash, nodes[x].proof)
  }

  ghost predicate EdgesInside(nodes: Nodes, edges: Graph<Label>) {
    forall e :: e in edges ==> e.0 in nodes && e.1 in nodes
  }

  ghost predicate CoherentAt(nodes: Nodes, edges: Graph<Label>, x: Label) {
    x in nodes ==>
      nodes[x].statementHash == StatementHash(x, nodes[x].kind, nodes[x].statement, EdgeDeps(nodes, edges, x))
  }

  /** Every statement hash is the hash of the node's own statement and of its
      dependencies' current hashes. */
  ghost predicate Coherent(nodes: Nodes, edges: Graph<Label>) {
    forall x :: x in nodes ==> CoherentAt(nodes, edges, x)
  }

  /** The stored hash of x carries the current hash of every dependency x has an edge to. Unlike
      coherence this does not mind references that no node answers to. */
  ghost predicate CurrentAt(nodes: Nodes, edges: Graph<Label>, x: Label) {
    x in nodes ==>
      && nodes[x].statementHash.StatementHash?
      && forall d :: (x, d) in edges && d in nodes ==> CarriesHash(nodes[x].statementHash, d, nodes[d].statementHash)
  }

  ghost predicate CarriesHash(h: Hash, d: Label, dep: Hash)
    requires h.StatementHash?
  {
    d in h.deps && h.deps[d] == dep
  }

  ghost predicate EdgesCurrent(nodes: Nodes, edges: Graph<Label>) {
    forall x :: x in nodes ==> CurrentAt(nodes, edges, x)
  }

  lemma CoherentIsCurrent(nodes: Nodes, edges: Graph<Label>, x: Label)
    requires CoherentAt(nodes, edges, x)
    ensures CurrentAt(nodes, edges, x)
  {
    if x in nodes {
      forall d | (x, d) in edges && d in nodes ensures CarriesHash(nodes[x].statementHash, d, nodes[d].statementHash) {
        assert d in DepsOf(edges, x);
      }
    }
  }

  lemma AllCoherentIsCurrent(nodes: Nodes, edges: Graph<Label>)
    requires Coherent(nodes, edges)
    ensures EdgesCurrent(nodes, edges)
  {
    forall x | x in nodes ensures CurrentAt(nodes, edges, x) {
      CoherentIsCurrent(nodes, edges, x);
    }
  }

  ghost predicate SameText(a: Row, b: Row) {
    a.kind == b.kind && a.statement == b.statement && a.proof == b.proof && a.remark == b.remark
    && a.sourceNote == b.sourceNote
  }

  /** b is a with fresh hashes and everything a verdict ever added thrown away. */
  ghost predicate ResetRow(a: Row, b: Row) {
    && SameText(a, b)
    && b.statementHash != a.statementHash && b.verificationHash != a.verificationHash
    && b.passCount == InitialCount(a.kind, a.proof)
    && b.repairCount == 0 && b.hint == "" && b.report == ""
  }

  ghost predicate Shape(nodes: Nodes, edges: Graph<Label>, frontier: seq<Label>, seen: set<Label>, o: Outcome) {
    && o.nodes.Keys == nodes.Keys
    && Distinct(o.popped)
    && (forall x :: x in o.popped ==> x in nodes && x !in seen)
    && (forall x :: x in o.changed ==> x in o.popped)
    && (forall x :: x in nodes && x !in o.changed ==> o.nodes[x] == nodes[x])
    && (forall x :: x in o.changed ==> ResetRow(nodes[x], o.nodes[x]))
    && (forall x :: x in frontier && x in nodes ==> x in o.popped || x in seen)
    && (forall e :: e in edges && e.1 in o.changed && e.0 in nodes ==> e.0 in o.popped || e.0 in seen)
  }

  lemma RehashedResets(nodes: Nodes, edges: Graph<Label>, name: Label)
    requires name in nodes && RowsHashed(nodes)
    ensures Rehashed(nodes, edges, name) == nodes[name] || ResetRow(nodes[name], Rehashed(nodes, edges, name))
    ensures RowsHashed(nodes[name := Rehashed(nodes, edges, name)])
  {
  }

  /** What any run changes: each changed node is reset, every dependent of a changed
      node gets its turn, and nothing else moves. */
  lemma {:induction false} CascadeShape(nodes: Nodes, edges: Graph<Label>, frontier: seq<Label>, seen: set<Label>)
    requires RowsHashed(nodes)
    ensures Shape(nodes, edges, frontier, seen, Cascade(nodes, edges, frontier, seen))
    ensures RowsHashed(Cascade(nodes, edges, frontier, seen).nodes)
    decreases nodes.Keys - seen, |frontier|
  {
    if frontier != [] {
      var name, rest := frontier[0], frontier[1..];
      assert frontier == [name] + rest;
      if name in seen {
        CascadeShape(nodes, edges, rest, seen);
      } else if name !in nodes {
        assert nodes.Keys - (seen + {name}) == nodes.Keys - seen;
        CascadeShape(nodes, edges, rest, seen + {name});
      } else {
        RehashedResets(nodes, edges, name);
        var row := Rehashed(nodes, edges, name);
        assert name in nodes.Keys - seen;
        if row == nodes[name] {
          CascadeShape(nodes, edges, rest, seen + {name});
          ShapeQuiet(nodes, edges, name, rest, seen, Cascade(nodes, edges, rest, seen + {name}));
        } else {
          var nodes' := nodes[name := row];
          assert nodes'.Keys == nodes.Keys;
          var pushed := SortedLabels(DependentsOf(edges, name));
          CascadeShape(nodes', edges, rest + pushed, seen + {name});
          ShapeMoved(nodes, edges, name, rest, seen, Cascade(nodes', edges, rest + pushed, seen + {name}));
        }
      }
    }
  }

  /** A turn that changes nothing in front of a run. */
  lemma ShapeQuiet(nodes: Nodes, edges: Graph<Label>, name: Label, rest: seq<Label>, seen: set<Label>, o: Outcome)
    requires name in nodes && name !in seen && Shape(nodes, edges, rest, seen + {name}, o)
    ensures Shape(nodes, edges, [name] + rest, seen, o.(popped := [name] + o.popped))
  {
    PrependDistinct(name, o.popped);
  }

  /** A turn that resets its row in front of a run. */
  lemma ShapeMoved(nodes: Nodes, edges: Graph<Label>, name: Label, rest: seq<Label>, seen: set<Label>, o: Outcome)
    requires name in nodes && name !in seen && ResetRow(nodes[name], Rehashed(nodes, edges, name))
    requires var pushed := SortedLabels(DependentsOf(edges, name));
             Shape(nodes[name := Rehashed(nodes, edges, name)], edges, rest + pushed, seen + {name}, o)
    ensures Shape(nodes, edges, [name] + rest, seen, Outcome(o.nodes, [name] + o.popped, o.changed + {name}))
  {
    PrependDistinct(name, o.popped);
    assert name !in o.changed;
    assert forall e :: e in edges && e.1 == name ==> e.0 in DependentsOf(edges, name);
  }

  /** Dependency hashes as they stood when the i-th label was popped: a dependency popped
      later (or at that moment) still shows its old hash, every other its final one. */
  ghost function HashesWhenPopped(before: Nodes, after: Nodes, edges: Graph<Label>, popped: seq<Label>,
                                  i: nat): map<Label, Hash>
    requires i < |popped| && before.Keys == after.Keys
  {
    map d | d in DepsOf(edges, popped[i]) && d in before ::
      if d in popped[i..] then before[d].statementHash else after[d].statementHash
  }

  lemma HashesShift(before: Nodes, after: Nodes, edges: Graph<Label>, name: Label, row: Row, popped: seq<Label>, i: nat)
    requires name in before && before.Keys == after.Keys == before[name := row].Keys
    requires i < |popped| && name !in popped
    ensures HashesWhenPopped(before, after, edges, [name] + popped, i + 1)
         == HashesWhenPopped(before[name := row], after, edges, popped, i)
  {
    assert ([name] + popped)[i + 1..] == popped[i..];
  }

  lemma HashesFirst(before: Nodes, after: Nodes, edges: Graph<Label>, popped: seq<Label>)
    requires popped != [] && before.Keys == after.Keys
    requires forall x :: x in before && x !in popped ==> after[x] == before[x]
    ensures HashesWhenPopped(before, after, edges, popped, 0) == EdgeDeps(before, edges, popped[0])
  {
    assert popped[0..] == popped;
  }

  ghost predicate SettledAt(before: Nodes, edges: Graph<Label>, o: Outcome, i: nat) {
    && i < |o.popped| && o.nodes.Keys == before.Keys && o.popped[i] in before
    && var x := o.popped[i];
    o.nodes[x].statementHash == StatementHash(x, before[x].kind, before[x].statement,
                                              HashesWhenPopped(before, o.nodes, edges, o.popped, i))
  }

  /** A popped node ends with the hash of its dependencies' hashes at its turn. */
  lemma {:induction false} CascadeSettles(nodes: Nodes, edges: Graph<Label>, frontier: seq<Label>, seen: set<Label>,
                                          i: nat)
    requires RowsHashed(nodes)
    requires i < |Cascade(nodes, edges, frontier, seen).popped|
    ensures SettledAt(nodes, edges, Cascade(nodes, edges, frontier, seen), i)
    decreases nodes.Keys - seen, |frontier|
  {
    var name, rest := frontier[0], frontier[1..];
    if name in seen {
      CascadeSettles(nodes, edges, rest, seen, i);
    } else if name !in nodes {
      assert nodes.Keys - (seen + {name}) == nodes.Keys - seen;
      CascadeSettles(nodes, edges, rest, seen + {name}, i);
    } else {
      RehashedResets(nodes, edges, name);
      var row := Rehashed(nodes, edges, name);
      assert name in nodes.Keys - seen;
      var nodes' := nodes[name := row];
      assert nodes'.Keys == nodes.Keys;
      if i == 0 {
        FirstSettles(nodes, edges, frontier, seen);
      } else if row == nodes[name] {
        CascadeSettles(nodes, edges, rest, seen + {name}, i - 1);
        SameSettles(nodes, edges, frontier, seen, i);
      } else {
        var frontier' := rest + SortedLabels(DependentsOf(edges, name));
        CascadeSettles(nodes', edges, frontier', seen + {name}, i - 1);
        LaterSettles(nodes, edges, frontier, seen, i);
      }
    }
  }

  /** After an unchanged first turn. */
  lemma SameSettles(nodes: Nodes, edges: Graph<Label>, frontier: seq<Label>, seen: set<Label>, i: nat)
    requires RowsHashed(nodes) && frontier != [] && frontier[0] in nodes && frontier[0] !in seen && i > 0
    requires Rehashed(nodes, edges, frontier[0]) == nodes[frontier[0]]
    requires SettledAt(nodes, edges, Cascade(nodes, edges, frontier[1..], seen + {frontier[0]}), i - 1)
    ensures SettledAt(nodes, edges, Cascade(nodes, edges, frontier, seen), i)
  {
    var name, rest := frontier[0], frontier[1..];
    var o, o' := Cascade(nodes, edges, frontier, seen), Cascade(nodes, edges, rest, seen + {name});
    CascadeShape(nodes, edges, rest, seen + {name});
    assert nodes[name := nodes[name]] == nodes;
    HashesShift(nodes, o.nodes, edges, name, nodes[name], o'.popped, i - 1);
  }

  /** After a first turn that changed the row. */
  lemma LaterSettles(nodes: Nodes, edges: Graph<Label>, frontier: seq<Label>, seen: set<Label>, i: nat)
    requires RowsHashed(nodes) && frontier != [] && frontier[0] in nodes && frontier[0] !in seen && i > 0
    requires Rehashed(nodes, edges, frontier[0]) != nodes[frontier[0]]
    requires var name := frontier[0];
             SettledAt(nodes[name := Rehashed(nodes, edges, name)], edges,
                       Cascade(nodes[name := Rehashed(nodes, edges, name)], edges,
                               frontier[1..] + SortedLabels(DependentsOf(edges, name)), seen + {name}), i - 1)
    ensures SettledAt(nodes, edges, Cascade(nodes, edges, frontier, seen), i)
  {
    var name := frontier[0];
    var row := Rehashed(nodes, edges, name);
    var nodes', frontier' := nodes[name := row], frontier[1..] + SortedLabels(DependentsOf(edges, name));
    RehashedResets(nodes, edges, name);
    var o, o' := Cascade(nodes, edges, frontier, seen), Cascade(nodes', edges, frontier', seen + {name});
    CascadeShape(nodes', edges, frontier', seen + {name});
    HashesShift(nodes, o.nodes, edges, name, row, o'.popped, i - 1);
  }

  lemma FirstSettles(nodes: Nodes, edges: Graph<Label>, frontier: seq<Label>, seen: set<Label>)
    requires RowsHashed(nodes)
    requires frontier != [] && frontier[0] in nodes && frontier[0] !in seen
    ensures SettledAt(nodes, edges, Cascade(nodes, edges, frontier, seen), 0)
  {
    var o := Cascade(nodes, edges, frontier, seen);
    CascadeShape(nodes, edges, frontier, seen);
    var name, rest := frontier[0], frontier[1..];
    RehashedResets(nodes, edges, name);
    var row := Rehashed(nodes, edges, name);
    HashesFirst(nodes, o.nodes, edges, o.popped);
    if row == nodes[name] {
      CascadeShape(nodes, edges, rest, seen + {name});
    } else {
      CascadeShape(nodes[name := row], edges, rest + SortedLabels(DependentsOf(edges, name)), seen + {name});
    }
  }

  /** No dependency of the i-th popped label changes at that turn or later. */
  ghost predicate DepsDoneBy(edges: Graph<Label>, o: Outcome, i: nat)
    requires i < |o.popped|
  {
    forall j :: i <= j < |o.popped| && o.popped[j] in o.changed ==> (o.popped[i], o.popped[j]) !in edges
  }

  /** No label gets its turn before a dependency of it that the run changes. */
  ghost predicate PopsDepsFirst(edges: Graph<Label>, o: Outcome) {
    forall i :: 0 <= i < |o.popped| ==> DepsDoneBy(edges, o, i)
  }

  lemma LateDepLeavesStale(nodes: Nodes, edges: Graph<Label>, frontier: seq<Label>, i: nat, j: nat)
    requires RowsHashed(nodes) && EdgesInside(nodes, edges)
    requires var o := Cascade(nodes, edges, frontier, {});
             i <= j < |o.popped| && o.popped[j] in o.changed && (o.popped[i], o.popped[j]) in edges
    ensures var o := Cascade(nodes, edges, frontier, {}); !CurrentAt(o.nodes, edges, o.popped[i])
  {
    var o := Cascade(nodes, edges, frontier, {});
    CascadeShape(nodes, edges, frontier, {});
    CascadeSettles(nodes, edges, frontier, {}, i);
    var d := o.popped[j];
    assert d == o.popped[i..][j - i];
    assert d in DepsOf(edges, o.popped[i]);
    assert HashesWhenPopped(nodes, o.nodes, edges, o.popped, i)[d] == nodes[d].statementHash;
    assert !CarriesHash(o.nodes[o.popped[i]].statementHash, d, o.nodes[d].statementHash);
  }

  lemma DoneDepsCoherent(nodes: Nodes, edges: Graph<Label>, frontier: seq<Label>, i: nat)
    requires RowsHashed(nodes) && EdgesInside(nodes, edges)
    requires var o := Cascade(nodes, edges, frontier, {});
             i < |o.popped| && DepsDoneBy(edges, o, i)
    ensures var o := Cascade(nodes, edges, frontier, {}); CoherentAt(o.nodes, edges, o.popped[i])
  {
    var o := Cascade(nodes, edges, frontier, {});
    CascadeShape(nodes, edges, frontier, {});
    CascadeSettles(nodes, edges, frontier, {}, i);
    DoneHashes(nodes, edges, frontier, o, i);
  }

  lemma DoneHashes(nodes: Nodes, edges: Graph<Label>, frontier: seq<Label>, o: Outcome, i: nat)
    requires Shape(nodes, edges, frontier, {}, o) && EdgesInside(nodes, edges) && i < |o.popped|
    requires DepsDoneBy(edges, o, i)
    ensures HashesWhenPopped(nodes, o.nodes, edges, o.popped, i) == EdgeDeps(o.nodes, edges, o.popped[i])
  {
    forall d | d in DepsOf(edges, o.popped[i]) && d in o.popped[i..] ensures d !in o.changed {
      var k :| 0 <= k < |o.popped[i..]| && o.popped[i..][k] == d;
      assert o.popped[i + k] == d;
    }
  }

  /** In the run of a statement change only dependents, transitive ones included, get a turn. */
  lemma {:induction false} PoppedAreDependents(nodes: Nodes, edges: Graph<Label>, frontier: seq<Label>,
                                               seen: set<Label>, start: Label)
    requires RowsHashed(nodes)
    requires forall x :: x in frontier ==> DependsOn(edges, x, start)
    ensures forall x :: x in Cascade(nodes, edges, frontier, seen).popped ==> DependsOn(edges, x, start)
    decreases nodes.Keys - seen, |frontier|
  {
    if frontier != [] {
      var name, rest := frontier[0], frontier[1..];
      if name in seen {
        PoppedAreDependents(nodes, edges, rest, seen, start);
      } else if name !in nodes {
        assert nodes.Keys - (seen + {name}) == nodes.Keys - seen;
        PoppedAreDependents(nodes, edges, rest, seen + {name}, start);
      } else {
        RehashedResets(nodes, edges, name);
        var row := Rehashed(nodes, edges, name);
        assert name in nodes.Keys - seen;
        if row == nodes[name] {
          PoppedAreDependents(nodes, edges, rest, seen + {name}, start);
        } else {
          assert nodes[name := row].Keys == nodes.Keys;
          forall x | x in DependentsOf(edges, name) ensures DependsOn(edges, x, start) {
            assert (x, name) in edges;
            ReachesEdge(edges, x, name);
            DependsOnReaches(edges, x, name, start);
          }
          PoppedAreDependents(nodes[name := row], edges, rest + SortedLabels(DependentsOf(edges, name)), seen + {name},
                              start);
        }
      }
    }
  }

  lemma DirectDependentsDepend(edges: Graph<Label>, start: Label)
    ensures forall x :: x in DependentsOf(edges, start) ==> DependsOn(edges, x, start)
  {
    forall x | x in DependentsOf(edges, start) ensures DependsOn(edges, x, start) {
      assert (x, start) in edges;
      assert WalkBetween(edges, [x, start], x, start);
    }
  }

  lemma CascadeFromPops(nodes: Nodes, edges: Graph<Label>, start: Label)
    requires RowsHashed(nodes)
    ensures forall x :: x in CascadeFrom(nodes, edges, start).popped ==> DependsOn(edges, x, start)
  {
    DirectDependentsDepend(edges, start);
    PoppedAreDependents(nodes, edges, SortedLabels(DependentsOf(edges, start)), {}, start);
  }

  /** A node that got no turn has no changed dependency. */
  lemma UnpoppedKeepsCoherence(nodes: Nodes, edges: Graph<Label>, start: Label, x: Label)
    requires RowsHashed(nodes) && EdgesInside(nodes, edges)
    requires x in nodes && x !in CascadeFrom(nodes, edges, start).popped
    ensures CoherentAt(CascadeFrom(nodes, edges, start).nodes, edges, x) <==> CoherentAt(nodes, edges, x)
  {
    CascadeShape(nodes, edges, SortedLabels(DependentsOf(edges, start)), {});
    UnpoppedDeps(nodes, edges, SortedLabels(DependentsOf(edges, start)), CascadeFrom(nodes, edges, start), x);
  }

  lemma UnpoppedDeps(nodes: Nodes, edges: Graph<Label>, frontier: seq<Label>, o: Outcome, x: Label)
    requires Shape(nodes, edges, frontier, {}, o) && EdgesInside(nodes, edges) && x in nodes && x !in o.popped
    ensures o.nodes[x] == nodes[x] && EdgeDeps(o.nodes, edges, x) == EdgeDeps(nodes, edges, x)
  {
    forall d | d in DepsOf(edges, x) ensures d in nodes && o.nodes[d] == nodes[d] {
      assert (x, d) in edges;
    }
  }

  lemma CoherenceByParts(nodes: Nodes, edges: Graph<Label>, o: Outcome)
    requires o.nodes.Keys == nodes.Keys && forall x :: x in o.popped ==> x in nodes
    requires forall x :: x in nodes && x !in o.popped ==>
                           (CoherentAt(o.nodes, edges, x) <==> CoherentAt(nodes, edges, x))
    requires forall i :: 0 <= i < |o.popped| ==> (CoherentAt(o.nodes, edges, o.popped[i]) <==> DepsDoneBy(edges, o, i))
    ensures Coherent(o.nodes, edges)
       <==> PopsDepsFirst(edges, o) && forall x :: x in nodes && x !in o.popped ==> CoherentAt(nodes, edges, x)
  {
  }

  /** Exactly when the knowledge base is coherent after a cascade, whatever it was before:
      the nodes that got no turn were coherent already, and the turns came deps-first. */
  lemma CascadeCoherence(nodes: Nodes, edges: Graph<Label>, start: Label)
    requires RowsHashed(nodes) && EdgesInside(nodes, edges)
    ensures var o := CascadeFrom(nodes, edges, start);
            Coherent(o.nodes, edges)
            <==> PopsDepsFirst(edges, o) && forall x :: x in nodes && x !in o.popped ==> CoherentAt(nodes, edges, x)
  {
    var frontier := SortedLabels(DependentsOf(edges, start));
    var o := CascadeFrom(nodes, edges, start);
    CascadeShape(nodes, edges, frontier, {});
    forall x | x in nodes && x !in o.popped
      ensures CoherentAt(o.nodes, edges, x) <==> CoherentAt(nodes, edges, x)
    {
      UnpoppedKeepsCoherence(nodes, edges, start, x);
    }
    forall i | 0 <= i < |o.popped|
      ensures CoherentAt(o.nodes, edges, o.popped[i]) <==> DepsDoneBy(edges, o, i)
    {
      PoppedCoherence(nodes, edges, frontier, i);
    }
    CoherenceByParts(nodes, edges, o);
  }

  /** A node that got its turn is coherent, and its edges are current, exactly when no dependency
      changed at that turn or later. */
  lemma PoppedCoherence(nodes: Nodes, edges: Graph<Label>, frontier: seq<Label>, i: nat)
    requires RowsHashed(nodes) && EdgesInside(nodes, edges) && i < |Cascade(nodes, edges, frontier, {}).popped|
    ensures var o := Cascade(nodes, edges, frontier, {});
            && (CoherentAt(o.nodes, edges, o.popped[i]) <==> DepsDoneBy(edges, o, i))
            && (CurrentAt(o.nodes, edges, o.popped[i]) <==> DepsDoneBy(edges, o, i))
  {
    var o := Cascade(nodes, edges, frontier, {});
    if DepsDoneBy(edges, o, i) {
      DoneDepsCoherent(nodes, edges, frontier, i);
      CoherentIsCurrent(o.nodes, edges, o.popped[i]);
    } else {
      var j :| i <= j < |o.popped| && o.popped[j] in o.changed && (o.popped[i], o.popped[j]) in edges;
      LateDepLeavesStale(nodes, edges, frontier, i, j);
      if CoherentAt(o.nodes, edges, o.popped[i]) {
        CoherentIsCurrent(o.nodes, edges, o.popped[i]);
      }
    }
  }

  lemma UnpoppedKeepsCurrent(nodes: Nodes, edges: Graph<Label>, start: Label, x: Label)
    requires RowsHashed(nodes) && EdgesInside(nodes, edges)
    requires x in nodes && x !in CascadeFrom(nodes, edges, start).popped
    ensures CurrentAt(CascadeFrom(nodes, edges, start).nodes, edges, x) <==> CurrentAt(nodes, edges, x)
  {
    var frontier, o := SortedLabels(DependentsOf(edges, start)), CascadeFrom(nodes, edges, start);
    CascadeShape(nodes, edges, frontier, {});
    forall d | (x, d) in edges && d in nodes ensures o.nodes[d] == nodes[d] {
      assert d !in o.changed;
    }
  }

  lemma CurrentByParts(nodes: Nodes, edges: Graph<Label>, o: Outcome)
    requires o.nodes.Keys == nodes.Keys && forall x :: x in o.popped ==> x in nodes
    requires forall x :: x in nodes && x !in o.popped ==> (CurrentAt(o.nodes, edges, x) <==> CurrentAt(nodes, edges, x))
    requires forall i :: 0 <= i < |o.popped| ==> (CurrentAt(o.nodes, edges, o.popped[i]) <==> DepsDoneBy(edges, o, i))
    ensures EdgesCurrent(o.nodes, edges)
       <==> PopsDepsFirst(edges, o) && forall x :: x in nodes && x !in o.popped ==> CurrentAt(nodes, edges, x)
  {
  }

  /** Exactly when every edge is current after a cascade, whatever the store was before. */
  lemma CascadeCurrent(nodes: Nodes, edges: Graph<Label>, start: Label)
    requires RowsHashed(nodes) && EdgesInside(nodes, edges)
    ensures var o := CascadeFrom(nodes, edges, start);
            EdgesCurrent(o.nodes, edges)
            <==> PopsDepsFirst(edges, o) && forall x :: x in nodes && x !in o.popped ==> CurrentAt(nodes, edges, x)
  {
    var frontier, o := SortedLabels(DependentsOf(edges, start)), CascadeFrom(nodes, edges, start);
    CascadeShape(nodes, edges, frontier, {});
    forall x | x in nodes && x !in o.popped ensures CurrentAt(o.nodes, edges, x) <==> CurrentAt(nodes, edges, x) {
      UnpoppedKeepsCurrent(nodes, edges, start, x);
    }
    forall i | 0 <= i < |o.popped| ensures CurrentAt(o.nodes, edges, o.popped[i]) <==> DepsDoneBy(edges, o, i) {
      PoppedCoherence(nodes, edges, frontier, i);
    }
    CurrentByParts(nodes, edges, o);
  }
}
