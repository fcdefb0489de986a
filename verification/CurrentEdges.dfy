/** Which events keep the hash behind every edge current, dangling references or not. Reset
    completeness needs no more than that. */
module CurrentEdges {
  import opened CascadeReset
  import opened CascadeWalk
  import opened Coherence
  import opened Graphs
  import opened Hashing
  import opened Invariants
  import opened Labels
  import opened MerkleCascade
  import opened Projection
  import opened Search
  import opened Store

  lemma AssembledCurrent(db: Db, name: Label, row: Row)
    requires row.statementHash == StatementHash(name, row.kind, row.statement, AssembledDeps(db.nodes, name, Refs(row)))
    requires name !in Refs(row)
    ensures CurrentAt(PutNode(db, name, row).nodes, PutNode(db, name, row).edges, name)
  {
    var db' := PutNode(db, name, row);
    forall d | (name, d) in db'.edges && d in db'.nodes
      ensures CarriesHash(row.statementHash, d, db'.nodes[d].statementHash) {
      assert d in Refs(row) && d != name;
    }
  }

  /** A new row for name matters only to the nodes that cite it, and only if its hash moved. */
  lemma OthersStayCurrent(db: Db, name: Label, row: Row, x: Label)
    requires x in db.nodes && x != name && CurrentAt(db.nodes, db.edges, x) && EdgesInside(db.nodes, db.edges)
    requires (x, name) in db.edges ==> row.statementHash == HashOf(db.nodes, name)
    ensures CurrentAt(PutNode(db, name, row).nodes, PutNode(db, name, row).edges, x)
  {
    var db' := PutNode(db, name, row);
    forall d | (x, d) in db'.edges && d in db'.nodes
      ensures CarriesHash(db'.nodes[x].statementHash, d, db'.nodes[d].statementHash) {
      assert (x, d) in db.edges && d in db.nodes;
      assert CarriesHash(db.nodes[x].statementHash, d, db.nodes[d].statementHash);
    }
  }

  /** user.node_added always keeps the edges current, also when it cites labels without a node. */
  lemma AddedCurrent(db: Db, target: Option<Label>, draft: Option<Draft>)
    requires Valid(db) && EdgesCurrent(db.nodes, db.edges) && ApplyAdded(db, target, draft).Accept?
    ensures EdgesCurrent(ApplyAdded(db, target, draft).db.nodes, ApplyAdded(db, target, draft).db.edges)
  {
    var name, kind := target.value, ParseKind(draft.value.kind).value;
    var row := Assembled(db.nodes, name, kind, draft.value);
    var db' := PutNode(db, name, row);
    if name in Refs(row) {
      SelfReferenceCycles(db, name, row);
    }
    AssembledCurrent(db, name, row);
    forall x | x in db'.nodes ensures CurrentAt(db'.nodes, db'.edges, x) {
      if x != name {
        OthersStayCurrent(db, name, row, x);
      }
    }
  }

  /** The rewritten store of a revision, before any cascade. */
  lemma RewrittenCurrent(db: Db, name: Label, kind: Kind, draft: Draft, x: Label)
    requires Valid(db) && EdgesCurrent(db.nodes, db.edges) && name in db.nodes && x in db.nodes
    requires LabelFits(name, kind) && Acyclic(RevisedDb(db, name, kind, draft).edges)
    requires (x, name) in db.edges ==>
               RevisedDb(db, name, kind, draft).nodes[name].statementHash == db.nodes[name].statementHash
    ensures CurrentAt(RevisedDb(db, name, kind, draft).nodes, RevisedDb(db, name, kind, draft).edges, x)
  {
    var row := RevisedDb(db, name, kind, draft).nodes[name];
    RevisedDbValid(db, name, kind, draft);
    if x == name {
      if name in Refs(row) {
        SelfReferenceCycles(db, name, row);
      }
      AssembledCurrent(db, name, row);
    } else {
      OthersStayCurrent(db, name, row, x);
    }
  }

  lemma MovedRevisionCurrent(db: Db, name: Label, kind: Kind, draft: Draft)
    requires Valid(db) && EdgesCurrent(db.nodes, db.edges) && name in db.nodes
    requires LabelFits(name, kind) && Acyclic(RevisedDb(db, name, kind, draft).edges)
    requires RevisedDb(db, name, kind, draft).nodes[name].statementHash != db.nodes[name].statementHash
    ensures var mid := RevisedDb(db, name, kind, draft);
            EdgesCurrent(CascadeFrom(mid.nodes, mid.edges, name).nodes, mid.edges)
            <==> DepsFirst(mid.edges, RevisionTurns(db, name, kind, draft))
  {
    var mid := RevisedDb(db, name, kind, draft);
    RevisedDbValid(db, name, kind, draft);
    RevisionIsStatementChange(db, name, kind, draft);
    PopsDepsFirstFromGraph(db.nodes, db.edges, mid.nodes, mid.edges, name);
    CascadeCurrent(mid.nodes, mid.edges, name);
    forall x | x in mid.nodes && x !in CascadeFrom(mid.nodes, mid.edges, name).popped
      ensures CurrentAt(mid.nodes, mid.edges, x) {
      DirectDependentsPopped(mid, name, x);
      NoSelfEdge(db.edges, name);
      assert (x, name) in db.edges ==> x != name && (x, name) in mid.edges;
      RewrittenCurrent(db, name, kind, draft, x);
    }
  }

  lemma NoSelfEdge(g: Graph<Label>, x: Label)
    requires Acyclic(g)
    ensures (x, x) !in g
  {
    if (x, x) in g {
      assert ClosedWalk(g, [x, x]);
    }
  }

  /** user.node_revised keeps the edges current exactly when it leaves the statement hash alone or
      the breadth-first turns visit no node before one of its dependencies. */
  lemma RevisedCurrent(db: Db, target: Option<Label>, draft: Option<Draft>)
    requires Valid(db) && EdgesCurrent(db.nodes, db.edges) && ApplyRevised(db, target, draft).Accept?
    ensures var db' := ApplyRevised(db, target, draft).db;
            EdgesCurrent(db'.nodes, db'.edges) <==> TurnsFitRevision(db, target.value, draft.value)
  {
    var name, kind := target.value, ParseKind(draft.value.kind).value;
    var mid := RevisedDb(db, name, kind, draft.value);
    if mid.nodes[name].statementHash != db.nodes[name].statementHash {
      MovedRevisionCurrent(db, name, kind, draft.value);
    } else {
      forall x | x in mid.nodes ensures CurrentAt(mid.nodes, mid.edges, x) {
        RewrittenCurrent(db, name, kind, draft.value, x);
      }
    }
  }

  /** The revision does not move the statement hash, or its cascade comes dependencies-first. */
  ghost predicate TurnsFitRevision(db: Db, name: Label, draft: Draft)
    requires name in db.nodes && ParseKind(draft.kind).Some?
  {
    var kind := ParseKind(draft.kind).value;
    RevisedDb(db, name, kind, draft).nodes[name].statementHash != db.nodes[name].statementHash ==>
      DepsFirst(RevisedDb(db, name, kind, draft).edges, RevisionTurns(db, name, kind, draft))
  }

  /** The batch does not move the statement hash of an existing target, or on the graph no label
      has its turn before a label that moves and that it cites. */
  ghost predicate TurnsFitBatch(db: Db, target: Label, batch: Batch)
    requires BatchReady(db, target, batch)
  {
    target in db.nodes && BatchMid(db, target, batch).nodes[target].statementHash != db.nodes[target].statementHash ==>
      MovesFirst(BatchEdgesOf(db, batch), BatchTurns(db, target, batch))
  }

  lemma WithoutTurnCurrent(db: Db, target: Label, batch: Batch, x: Label)
    requires Valid(db) && EdgesCurrent(db.nodes, db.edges) && BatchReady(db, target, batch)
    requires Acyclic(BatchMid(db, target, batch).edges)
    requires x in BatchMid(db, target, batch).nodes
    requires x !in batch && (x, target) in db.edges ==>
               && target in db.nodes
               && BatchMid(db, target, batch).nodes[target].statementHash == db.nodes[target].statementHash
    ensures CurrentAt(BatchMid(db, target, batch).nodes, BatchMid(db, target, batch).edges, x)
  {
    if x in batch {
      MemberCurrent(db, target, batch, x);
    } else {
      assert CurrentAt(db.nodes, db.edges, x);
      OutsiderCurrent(db, target, batch, x);
    }
  }

  lemma MovedBatchCurrent(db: Db, target: Label, batch: Batch)
    requires Valid(db) && EdgesCurrent(db.nodes, db.edges) && BatchReady(db, target, batch) && target in db.nodes
    requires Valid(BatchMid(db, target, batch))
    requires BatchMid(db, target, batch).nodes[target].statementHash != db.nodes[target].statementHash
    ensures var mid := BatchMid(db, target, batch);
            EdgesCurrent(CascadeFrom(mid.nodes, mid.edges, target).nodes, mid.edges)
            <==> MovesFirst(BatchEdgesOf(db, batch), BatchTurns(db, target, batch))
  {
    var mid := BatchMid(db, target, batch);
    ValidRowsHashed(mid);
    BatchTurnsTaken(db, target, batch);
    CascadeCurrent(mid.nodes, mid.edges, target);
    forall x | x in mid.nodes && x !in CascadeFrom(mid.nodes, mid.edges, target).popped
      ensures CurrentAt(mid.nodes, mid.edges, x) {
      DirectDependentsPopped(mid, target, x);
      assert x !in batch ==> ((x, target) in db.edges <==> (x, target) in mid.edges);
      WithoutTurnCurrent(db, target, batch, x);
    }
  }

  /** generator.batch_committed keeps the edges current exactly when its turns fit. */
  lemma BatchCurrent(db: Db, target: Label, entries: seq<BatchEntry>)
    requires Valid(db) && EdgesCurrent(db.nodes, db.edges) && ApplyBatch(db, target, entries).Accept?
    ensures BatchReady(db, target, BatchOf(entries))
    ensures var db' := ApplyBatch(db, target, entries).db;
            EdgesCurrent(db'.nodes, db'.edges) <==> TurnsFitBatch(db, target, BatchOf(entries))
  {
    var batch := BatchOf(entries);
    AcceptedBatch(db, target, entries);
    var mid := BatchMid(db, target, batch);
    if target in db.nodes && mid.nodes[target].statementHash != db.nodes[target].statementHash {
      MovedBatchCurrent(db, target, batch);
    } else {
      forall x | x in mid.nodes ensures CurrentAt(mid.nodes, mid.edges, x) {
        WithoutTurnCurrent(db, target, batch, x);
      }
    }
  }

  /** Rows that keep text and hashes leave coherence and currency alone: hints and verdicts. */
  lemma SameHashesSame(nodes: Nodes, after: Nodes, edges: Graph<Label>)
    requires after.Keys == nodes.Keys
    requires forall x :: x in nodes ==> SameText(nodes[x], after[x]) && after[x].statementHash == nodes[x].statementHash
    ensures EdgesCurrent(nodes, edges) ==> EdgesCurrent(after, edges)
    ensures Coherent(nodes, edges) ==> Coherent(after, edges)
  {
    if EdgesCurrent(nodes, edges) {
      forall x | x in after ensures CurrentAt(after, edges, x) {
        assert CurrentAt(nodes, edges, x);
      }
    }
    if Coherent(nodes, edges) {
      forall x | x in after ensures CoherentAt(after, edges, x) {
        assert CoherentAt(nodes, edges, x);
        assert EdgeDeps(after, edges, x) == EdgeDeps(nodes, edges, x);
      }
    }
  }
}
