/** Merkle coherence across whole operations: when an event keeps every statement hash the
    hash of its dependencies' current hashes, and what a statement change resets. */
module Coherence {
  import opened CascadeReset
  import opened CascadeWalk
  import opened Graphs
  import opened Hashing
  import opened Invariants
  import opened Labels
  import opened MerkleCascade
  import opened Projection
  import opened Search
  import opened Store

  /** Every cited label is among the known ones. */
  predicate RefsKnown(known: set<Label>, refs: seq<Label>) {
    forall d :: d in refs ==> d in known
  }

  lemma ValidRowsHashed(db: Db)
    requires Valid(db)
    ensures RowsHashed(db.nodes)
  {
    assert forall x :: x in db.nodes ==> RowValid(db.nodes[x]);
  }

  /** A freshly assembled row agrees with its edges exactly when nothing it cites is missing. */
  lemma AssembledCoherent(db: Db, name: Label, row: Row)
    requires row.statementHash == StatementHash(name, row.kind, row.statement, AssembledDeps(db.nodes, name, Refs(row)))
    requires name !in Refs(row)
    ensures CoherentAt(PutNode(db, name, row).nodes, PutNode(db, name, row).edges, name)
       <==> RefsKnown(db.nodes.Keys, Refs(row))
  {
    var db' := PutNode(db, name, row);
    var stored, now := AssembledDeps(db.nodes, name, Refs(row)), EdgeDeps(db'.nodes, db'.edges, name);
    assert forall d :: d in now <==> (name, d) in db'.edges && d in db'.nodes;
    assert forall d :: d in now <==> d in Refs(row) && d in db.nodes;
    if RefsKnown(db.nodes.Keys, Refs(row)) {
      assert stored == now;
    } else {
      var d :| d in Refs(row) && d !in db.nodes;
      assert d in stored && d !in now;
    }
  }

  lemma SelfReferenceCycles(db: Db, name: Label, row: Row)
    requires name in Refs(row)
    ensures !Acyclic(PutNode(db, name, row).edges)
  {
    var g := PutNode(db, name, row).edges;
    assert (name, name) in g;
    assert ClosedWalk(g, [name, name]);
  }

  /** Rows not cited by x may change without touching the coherence of x. */
  lemma OthersStayCoherent(db: Db, name: Label, row: Row, x: Label)
    requires x in db.nodes && x != name && (x, name) !in db.edges
    ensures CoherentAt(PutNode(db, name, row).nodes, PutNode(db, name, row).edges, x)
       <==> CoherentAt(db.nodes, db.edges, x)
  {
    var db' := PutNode(db, name, row);
    assert DepsOf(db'.edges, x) == DepsOf(db.edges, x);
    assert EdgeDeps(db'.nodes, db'.edges, x) == EdgeDeps(db.nodes, db.edges, x);
  }

  /** user.node_added keeps coherence exactly when every cited label already has a node. */
  lemma AddedCoherence(db: Db, target: Option<Label>, draft: Option<Draft>)
    requires Valid(db) && Coherent(db.nodes, db.edges) && ApplyAdded(db, target, draft).Accept?
    ensures var db' := ApplyAdded(db, target, draft).db;
            Coherent(db'.nodes, db'.edges) <==> RefsKnown(db.nodes.Keys, DraftRefs(draft.value))
  {
    var name, kind := target.value, ParseKind(draft.value.kind).value;
    var row := Assembled(db.nodes, name, kind, draft.value);
    var db' := PutNode(db, name, row);
    if name in Refs(row) {
      SelfReferenceCycles(db, name, row);
    }
    AssembledCoherent(db, name, row);
    forall x | x in db.nodes ensures CoherentAt(db'.nodes, db'.edges, x) {
      OthersStayCoherent(db, name, row, x);
    }
  }

  lemma RevisedDbValid(db: Db, name: Label, kind: Kind, draft: Draft)
    requires Valid(db) && name in db.nodes && LabelFits(name, kind) && Acyclic(RevisedDb(db, name, kind, draft).edges)
    ensures var db' := RevisedDb(db, name, kind, draft);
            && Valid(db') && RowsHashed(db'.nodes) && RowValid(db'.nodes[name]) && db'.nodes.Keys == db.nodes.Keys
            && Refs(db'.nodes[name]) == DraftRefs(draft)
            && var row := db'.nodes[name];
            row.statementHash == StatementHash(name, row.kind, row.statement, AssembledDeps(db.nodes, name, Refs(row)))
  {
    assert RowValid(db.nodes[name]);
    PutNodeKeeps(db, name, RevisedDb(db, name, kind, draft).nodes[name]);
    ValidRowsHashed(RevisedDb(db, name, kind, draft));
  }

  /** A user revision that moves the statement hash hands the cascade a statement change. */
  lemma RevisionIsStatementChange(db: Db, name: Label, kind: Kind, draft: Draft)
    requires Valid(db) && name in db.nodes
    requires LabelFits(name, kind) && Acyclic(RevisedDb(db, name, kind, draft).edges)
    requires RevisedDb(db, name, kind, draft).nodes[name].statementHash != db.nodes[name].statementHash
    ensures var db' := RevisedDb(db, name, kind, draft);
            StatementChange(db.nodes, db.edges, db'.nodes, db'.edges, name)
  {
    RevisedDbValid(db, name, kind, draft);
  }

  /** The turns a cascade from name takes after its refs are replaced by those of draft. */
  function RevisionTurns(db: Db, name: Label, kind: Kind, draft: Draft): seq<Label>
    requires name in db.nodes
  {
    TurnsFrom(db.nodes.Keys, RevisedDb(db, name, kind, draft).edges, name)
  }

  lemma UnpoppedAfterRevision(db: Db, name: Label, row: Row)
    requires Valid(db) && Coherent(db.nodes, db.edges) && name in db.nodes && RowValid(row) && LabelFits(name, row.kind)
    requires Acyclic(PutNode(db, name, row).edges)
    requires row.statementHash == StatementHash(name, row.kind, row.statement, AssembledDeps(db.nodes, name, Refs(row)))
    ensures var db' := PutNode(db, name, row);
            var o := CascadeFrom(db'.nodes, db'.edges, name);
            (forall x :: x in db'.nodes && x !in o.popped ==> CoherentAt(db'.nodes, db'.edges, x))
            <==> RefsKnown(db.nodes.Keys, Refs(row))
  {
    var db' := PutNode(db, name, row);
    var o := CascadeFrom(db'.nodes, db'.edges, name);
    PutNodeKeeps(db, name, row);
    ValidRowsHashed(db');
    CascadeShape(db'.nodes, db'.edges, SortedLabels(DependentsOf(db'.edges, name)), {});
    StartNotPopped(db'.nodes, db'.edges, name);
    if name in Refs(row) {
      SelfReferenceCycles(db, name, row);
    }
    AssembledCoherent(db, name, row);
    forall x | x in db.nodes && x != name && x !in o.popped ensures CoherentAt(db'.nodes, db'.edges, x) {
      assert (x, name) in db'.edges ==> x in DependentsOf(db'.edges, name);
      OthersStayCoherent(db, name, row, x);
    }
  }

  lemma StartKeepsHash(db: Db, name: Label)
    requires Valid(db) && name in db.nodes
    ensures CascadeFrom(db.nodes, db.edges, name).nodes.Keys == db.nodes.Keys
    ensures CascadeFrom(db.nodes, db.edges, name).nodes[name] == db.nodes[name]
  {
    ValidRowsHashed(db);
    CascadeShape(db.nodes, db.edges, SortedLabels(DependentsOf(db.edges, name)), {});
    StartNotPopped(db.nodes, db.edges, name);
  }

  /** Without a new statement hash nobody else notices the revision. */
  lemma SameHashCoherence(db: Db, name: Label, row: Row)
    requires Coherent(db.nodes, db.edges) && name in db.nodes
    requires row.statementHash == db.nodes[name].statementHash && name !in Refs(row)
    requires row.statementHash == StatementHash(name, row.kind, row.statement, AssembledDeps(db.nodes, name, Refs(row)))
    ensures Coherent(PutNode(db, name, row).nodes, PutNode(db, name, row).edges)
       <==> RefsKnown(db.nodes.Keys, Refs(row))
  {
    var db' := PutNode(db, name, row);
    AssembledCoherent(db, name, row);
    forall x | x in db.nodes && x != name ensures CoherentAt(db'.nodes, db'.edges, x) {
      SameHashOthers(db, name, row, x);
    }
  }

  lemma SameHashOthers(db: Db, name: Label, row: Row, x: Label)
    requires name in db.nodes && x in db.nodes && x != name && row.statementHash == db.nodes[name].statementHash
    ensures CoherentAt(PutNode(db, name, row).nodes, PutNode(db, name, row).edges, x)
       <==> CoherentAt(db.nodes, db.edges, x)
  {
    var db' := PutNode(db, name, row);
    assert DepsOf(db'.edges, x) == DepsOf(db.edges, x);
    assert EdgeDeps(db'.nodes, db'.edges, x) == EdgeDeps(db.nodes, db.edges, x);
  }

  lemma MovedHashCoherence(db: Db, name: Label, kind: Kind, draft: Draft)
    requires Valid(db) && Coherent(db.nodes, db.edges) && name in db.nodes
    requires LabelFits(name, kind) && Acyclic(RevisedDb(db, name, kind, draft).edges)
    requires RevisedDb(db, name, kind, draft).nodes[name].statementHash != db.nodes[name].statementHash
    ensures var mid := RevisedDb(db, name, kind, draft);
            Coherent(CascadeFrom(mid.nodes, mid.edges, name).nodes, mid.edges)
            <==> RefsKnown(db.nodes.Keys, DraftRefs(draft))
                 && DepsFirst(mid.edges, RevisionTurns(db, name, kind, draft))
  {
    var mid := RevisedDb(db, name, kind, draft);
    RevisedDbValid(db, name, kind, draft);
    UnpoppedAfterRevision(db, name, mid.nodes[name]);
    AllCoherentIsCurrent(db.nodes, db.edges);
    RevisionIsStatementChange(db, name, kind, draft);
    PopsDepsFirstFromGraph(db.nodes, db.edges, mid.nodes, mid.edges, name);
    CascadeCoherence(mid.nodes, mid.edges, name);
  }

  lemma StillHashCoherence(db: Db, name: Label, kind: Kind, draft: Draft)
    requires Valid(db) && Coherent(db.nodes, db.edges) && name in db.nodes
    requires LabelFits(name, kind) && Acyclic(RevisedDb(db, name, kind, draft).edges)
    requires RevisedDb(db, name, kind, draft).nodes[name].statementHash == db.nodes[name].statementHash
    ensures var mid := RevisedDb(db, name, kind, draft);
            Coherent(mid.nodes, mid.edges) <==> RefsKnown(db.nodes.Keys, DraftRefs(draft))
  {
    var row := RevisedDb(db, name, kind, draft).nodes[name];
    RevisedDbValid(db, name, kind, draft);
    if name in Refs(row) {
      SelfReferenceCycles(db, name, row);
    }
    SameHashCoherence(db, name, row);
  }

  /** user.node_revised keeps coherence exactly when every cited label has a node and, if the
      statement hash moved, the breadth-first turns visit no node before one of its dependencies. */
  lemma RevisedCoherence(db: Db, target: Option<Label>, draft: Option<Draft>)
    requires Valid(db) && Coherent(db.nodes, db.edges) && ApplyRevised(db, target, draft).Accept?
    ensures var db' := ApplyRevised(db, target, draft).db;
            var name, kind := target.value, ParseKind(draft.value.kind).value;
            && name in db'.nodes
            && (Coherent(db'.nodes, db'.edges) <==>
                && RefsKnown(db.nodes.Keys, DraftRefs(draft.value))
                && (db'.nodes[name].statementHash != db.nodes[name].statementHash ==>
                      DepsFirst(RevisedDb(db, name, kind, draft.value).edges,
                                RevisionTurns(db, name, kind, draft.value))))
  {
    var name, kind := target.value, ParseKind(draft.value.kind).value;
    var mid := RevisedDb(db, name, kind, draft.value);
    RevisedDbValid(db, name, kind, draft.value);
    if mid.nodes[name].statementHash != db.nodes[name].statementHash {
      StartKeepsHash(mid, name);
      MovedHashCoherence(db, name, kind, draft.value);
    } else {
      StillHashCoherence(db, name, kind, draft.value);
    }
  }

  lemma RewireNothing(g: Graph<Label>, x: Label)
    requires forall e :: e in g ==> e.0 != x
    ensures Rewire(g, x, {}) == g
  {
    forall e ensures e in Rewire(g, x, {}) <==> e in g {
    }
  }

  lemma CitingNothing(db: Db, name: Label, kind: Kind, draft: Draft)
    requires name in db.nodes && DraftRefs(draft) == [] && forall e :: e in db.edges ==> e.0 != name
    ensures RevisedDb(db, name, kind, draft).edges == db.edges
  {
    var mid := RevisedDb(db, name, kind, draft);
    assert Refs(mid.nodes[name]) == DraftRefs(draft);
    assert Resolved(mid.nodes, []) == {};
    RewireNothing(db.edges, name);
  }

  /** A store where the property fails, whatever its texts: once b cites s both directly and
      through a z that sorts behind b, a new statement for s leaves b with a stale hash. */
  lemma DiamondStaysStale(db: Db, s: Label, b: Label, z: Label, kind: Kind, draft: Draft)
    requires Valid(db) && Coherent(db.nodes, db.edges)
    requires s != b && s != z && b != z && Leq(b, z) && db.nodes.Keys == {s, b, z} && db.edges == Diamond(s, b, z)
    requires LabelFits(s, kind) && DraftRefs(draft) == []
    requires RevisedDb(db, s, kind, draft).nodes[s].statementHash != db.nodes[s].statementHash
    ensures var mid := RevisedDb(db, s, kind, draft);
            mid.edges == db.edges && !Coherent(CascadeFrom(mid.nodes, mid.edges, s).nodes, mid.edges)
  {
    DiamondSources(s, b, z);
    CitingNothing(db, s, kind, draft);
    MovedHashCoherence(db, s, kind, draft);
    assert RevisionTurns(db, s, kind, draft) == TurnsFrom({s, b, z}, Diamond(s, b, z), s);
    DiamondTurns(s, b, z);
  }

  lemma DiamondSources(s: Label, b: Label, z: Label)
    requires s != b && s != z
    ensures forall e :: e in Diamond(s, b, z) ==> e.0 != s
  {
  }

  /** What a change of target means for another node that was there before, when live are the
      edges along which the cascade is sure to reach. */
  ghost predicate ResetBy(db: Db, db': Db, target: Label, x: Label, live: Graph<Label>)
    requires x in db.nodes && target in db.nodes
  {
    && x in db'.nodes && target in db'.nodes
    && var moved := db'.nodes[target].statementHash != db.nodes[target].statementHash;
    && (db'.nodes[x] == db.nodes[x] || ResetRow(db.nodes[x], db'.nodes[x]))
    && (!moved || !DependsOn(db.edges, x, target) ==> db'.nodes[x] == db.nodes[x])
    && (moved && DependsOn(live, x, target) ==> ResetRow(db.nodes[x], db'.nodes[x]))
  }

  /** After a user revision that moved the statement hash, every node that depends on the target
      through nodes with current edges has lost its verdicts and got a new hash, every node
      outside the cone has kept its row, and every other node did one or the other. If all edges
      were current, every transitive dependent is reset, dangling references or not. */
  lemma RevisedResets(db: Db, target: Option<Label>, draft: Option<Draft>, x: Label)
    requires Valid(db) && ApplyRevised(db, target, draft).Accept?
    requires x in db.nodes && x != target.value
    ensures ResetBy(db, ApplyRevised(db, target, draft).db, target.value, x, CurrentPart(db.nodes, db.edges))
    ensures EdgesCurrent(db.nodes, db.edges) ==>
              ResetBy(db, ApplyRevised(db, target, draft).db, target.value, x, db.edges)
  {
    var name, kind := target.value, ParseKind(draft.value.kind).value;
    var mid := RevisedDb(db, name, kind, draft.value);
    RevisedDbValid(db, name, kind, draft.value);
    if EdgesCurrent(db.nodes, db.edges) {
      AllCurrentPart(db.nodes, db.edges);
    }
    if mid.nodes[name].statementHash != db.nodes[name].statementHash {
      StartKeepsHash(mid, name);
      RevisionIsStatementChange(db, name, kind, draft.value);
      CascadeResets(db.nodes, db.edges, mid.nodes, mid.edges, name, x);
    }
  }

  // ---- generator.batch_committed ----

  ghost predicate BatchReady(db: Db, target: Label, batch: Batch) {
    && KindsParse(batch) && target in batch && Acyclic(BatchGraph(batch))
    && (forall x :: x in batch && x != target ==> x !in db.nodes)
  }

  /** The store a batch leaves before any cascade. */
  ghost function BatchMid(db: Db, target: Label, batch: Batch): Db
    requires BatchReady(db, target, batch)
  {
    BatchDb(db, target, batch, Staging(db.nodes, batch))
  }

  lemma MemberNotSelf(db: Db, target: Label, batch: Batch, x: Label)
    requires BatchReady(db, target, batch) && x in batch && Acyclic(BatchMid(db, target, batch).edges)
    ensures x !in DraftRefs(batch[x])
  {
    if x in DraftRefs(batch[x]) {
      assert (x, x) in BatchMid(db, target, batch).edges;
      assert ClosedWalk(BatchMid(db, target, batch).edges, [x, x]);
    }
  }

  /** Out-of-batch rows keep their hash, so a staged hash is the hash over current hashes. */
  lemma StagedIsCurrent(db: Db, target: Label, batch: Batch, x: Label, d: Label)
    requires BatchReady(db, target, batch) && x in batch && d != x && d in BatchMid(db, target, batch).nodes
    ensures var hashes := Staging(db.nodes, batch);
            (if d in hashes then hashes[d] else HashOf(db.nodes, d))
            == BatchMid(db, target, batch).nodes[d].statementHash
  {
  }

  lemma MemberCoherent(db: Db, target: Label, batch: Batch, x: Label)
    requires BatchReady(db, target, batch) && x in batch && Acyclic(BatchMid(db, target, batch).edges)
    ensures var mid := BatchMid(db, target, batch);
            CoherentAt(mid.nodes, mid.edges, x) <==> RefsKnown(mid.nodes.Keys, DraftRefs(batch[x]))
  {
    var hashes := Staging(db.nodes, batch);
    MemberNotSelf(db, target, batch, x);
    assert StagedAt(db.nodes, batch, hashes, x);
    MemberDeps(db, target, batch, x);
  }

  lemma MemberEdges(db: Db, target: Label, batch: Batch, x: Label)
    requires BatchReady(db, target, batch) && x in batch
    ensures var mid := BatchMid(db, target, batch);
            forall d :: d in EdgeDeps(mid.nodes, mid.edges, x) <==> d in DraftRefs(batch[x]) && d in mid.nodes
  {
    var mid := BatchMid(db, target, batch);
    forall d ensures d in EdgeDeps(mid.nodes, mid.edges, x) <==> d in DraftRefs(batch[x]) && d in mid.nodes {
      assert d in DepsOf(mid.edges, x) <==> (x, d) in mid.edges;
    }
  }

  /** The staged and the current dependency hashes of a batch member agree when its refs resolve. */
  lemma MemberDepsKnown(db: Db, target: Label, batch: Batch, x: Label)
    requires BatchReady(db, target, batch) && x in batch && x !in DraftRefs(batch[x])
    requires RefsKnown(BatchMid(db, target, batch).nodes.Keys, DraftRefs(batch[x]))
    ensures var mid := BatchMid(db, target, batch);
            StagedDeps(db.nodes, Staging(db.nodes, batch), x, DraftRefs(batch[x])) == EdgeDeps(mid.nodes, mid.edges, x)
  {
    var mid, refs := BatchMid(db, target, batch), DraftRefs(batch[x]);
    var stored, now := StagedDeps(db.nodes, Staging(db.nodes, batch), x, refs), EdgeDeps(mid.nodes, mid.edges, x);
    MemberEdges(db, target, batch, x);
    forall d | d in refs ensures d in now && now[d] == stored[d] {
      MemberDepAt(db, target, batch, x, d);
    }
    SameEntries(stored, now);
  }

  lemma MemberDepAt(db: Db, target: Label, batch: Batch, x: Label, d: Label)
    requires BatchReady(db, target, batch) && x in batch && x !in DraftRefs(batch[x])
    requires d in DraftRefs(batch[x]) && d in BatchMid(db, target, batch).nodes
    ensures var mid := BatchMid(db, target, batch);
            var stored := StagedDeps(db.nodes, Staging(db.nodes, batch), x, DraftRefs(batch[x]));
            var now := EdgeDeps(mid.nodes, mid.edges, x);
            d in now && d in stored && now[d] == stored[d]
  {
    MemberEdges(db, target, batch, x);
    StagedIsCurrent(db, target, batch, x, d);
  }

  lemma SameEntries(a: map<Label, Hash>, b: map<Label, Hash>)
    requires (forall d :: d in a ==> d in b && b[d] == a[d]) && forall d :: d in b ==> d in a
    ensures a == b
  {
  }

  lemma MemberDeps(db: Db, target: Label, batch: Batch, x: Label)
    requires BatchReady(db, target, batch) && x in batch && x !in DraftRefs(batch[x])
    ensures var mid := BatchMid(db, target, batch);
            StagedDeps(db.nodes, Staging(db.nodes, batch), x, DraftRefs(batch[x])) == EdgeDeps(mid.nodes, mid.edges, x)
            <==> RefsKnown(mid.nodes.Keys, DraftRefs(batch[x]))
  {
    var mid, refs := BatchMid(db, target, batch), DraftRefs(batch[x]);
    var stored, now := StagedDeps(db.nodes, Staging(db.nodes, batch), x, refs), EdgeDeps(mid.nodes, mid.edges, x);
    MemberEdges(db, target, batch, x);
    if RefsKnown(mid.nodes.Keys, refs) {
      MemberDepsKnown(db, target, batch, x);
    } else {
      var d :| d in refs && d !in mid.nodes;
      assert d in stored && d !in now;
    }
  }

  lemma OutsiderCoherent(db: Db, target: Label, batch: Batch, x: Label)
    requires BatchReady(db, target, batch) && x in db.nodes && x !in batch && EdgesInside(db.nodes, db.edges)
    requires (x, target) in db.edges ==>
               BatchMid(db, target, batch).nodes[target].statementHash == HashOf(db.nodes, target)
    ensures var mid := BatchMid(db, target, batch);
            CoherentAt(mid.nodes, mid.edges, x) <==> CoherentAt(db.nodes, db.edges, x)
  {
    var mid := BatchMid(db, target, batch);
    forall d ensures (x, d) in mid.edges <==> (x, d) in db.edges {
    }
    assert DepsOf(mid.edges, x) == DepsOf(db.edges, x);
    forall d | d in DepsOf(db.edges, x)
      ensures d in mid.nodes && d in db.nodes && mid.nodes[d].statementHash == db.nodes[d].statementHash {
      assert (x, d) in db.edges;
    }
    assert EdgeDeps(mid.nodes, mid.edges, x) == EdgeDeps(db.nodes, db.edges, x);
  }

  /** No member in the given set cites a label that is neither a node nor in the batch. */
  ghost predicate MembersResolve(db: Db, batch: Batch, members: set<Label>) {
    forall x :: x in members && x in batch ==> RefsKnown(db.nodes.Keys + batch.Keys, DraftRefs(batch[x]))
  }

  /** A batch that moves no existing statement hash keeps coherence exactly when every label
      it cites has a node once the batch is in. */
  lemma QuietBatchCoherence(db: Db, target: Label, batch: Batch)
    requires EdgesInside(db.nodes, db.edges) && Coherent(db.nodes, db.edges) && BatchReady(db, target, batch)
    requires Acyclic(BatchMid(db, target, batch).edges)
    requires target in db.nodes ==>
               BatchMid(db, target, batch).nodes[target].statementHash == db.nodes[target].statementHash
    ensures var mid := BatchMid(db, target, batch);
            Coherent(mid.nodes, mid.edges) <==> MembersResolve(db, batch, batch.Keys)
  {
    var mid := BatchMid(db, target, batch);
    forall x | x in mid.nodes && x !in batch ensures CoherentAt(mid.nodes, mid.edges, x) {
      OutsiderCoherent(db, target, batch, x);
    }
    forall x | x in batch
      ensures CoherentAt(mid.nodes, mid.edges, x) <==> RefsKnown(db.nodes.Keys + batch.Keys, DraftRefs(batch[x])) {
      MemberResolved(db, target, batch, x);
    }
  }

  /** The labels whose stored hash is out of date for good once the batch is in: old direct
      dependents of the target, and members that cite a label no node answers to. */
  function BatchStale(db: Db, target: Label, batch: Batch): set<Label> {
    (set e | e in db.edges && e.1 == target && e.0 !in batch :: e.0)
    + (set x | x in batch && !RefsKnown(db.nodes.Keys + batch.Keys, DraftRefs(batch[x])))
  }

  /** The graph after a batch, and the turns a cascade from its target takes in it. */
  function BatchEdgesOf(db: Db, batch: Batch): Graph<Label> {
    BatchEdges(db.edges, db.nodes.Keys + batch.Keys, batch)
  }

  function BatchTurns(db: Db, target: Label, batch: Batch): Turns {
    MovingTurnsFrom(db.nodes.Keys + batch.Keys, BatchEdgesOf(db, batch), BatchStale(db, target, batch), target)
  }

  lemma MemberHash(db: Db, target: Label, batch: Batch, x: Label)
    requires BatchReady(db, target, batch) && x in batch
    ensures var h := BatchMid(db, target, batch).nodes[x].statementHash;
            h.StatementHash? && h.deps == StagedDeps(db.nodes, Staging(db.nodes, batch), x, DraftRefs(batch[x]))
  {
    assert StagedAt(db.nodes, batch, Staging(db.nodes, batch), x);
  }

  lemma MemberHopeless(db: Db, target: Label, batch: Batch, x: Label)
    requires BatchReady(db, target, batch) && x in batch && !RefsKnown(db.nodes.Keys + batch.Keys, DraftRefs(batch[x]))
    ensures Hopeless(BatchMid(db, target, batch).nodes, BatchMid(db, target, batch).edges, target, x)
  {
    MemberHash(db, target, batch, x);
    MemberEdges(db, target, batch, x);
    var d :| d in DraftRefs(batch[x]) && d !in db.nodes.Keys + batch.Keys;
    var mid := BatchMid(db, target, batch);
    assert d in mid.nodes[x].statementHash.deps && d !in EdgeDeps(mid.nodes, mid.edges, x);
  }

  lemma MemberCurrent(db: Db, target: Label, batch: Batch, x: Label)
    requires BatchReady(db, target, batch) && x in batch && Acyclic(BatchMid(db, target, batch).edges)
    ensures CurrentAt(BatchMid(db, target, batch).nodes, BatchMid(db, target, batch).edges, x)
  {
    var mid := BatchMid(db, target, batch);
    MemberHash(db, target, batch, x);
    MemberNotSelf(db, target, batch, x);
    forall d | (x, d) in mid.edges && d in mid.nodes
      ensures CarriesHash(mid.nodes[x].statementHash, d, mid.nodes[d].statementHash) {
      assert d in DraftRefs(batch[x]);
      StagedIsCurrent(db, target, batch, x, d);
    }
  }

  lemma OutsiderHopeless(db: Db, target: Label, batch: Batch, x: Label)
    requires BatchReady(db, target, batch) && target in db.nodes && x in db.nodes && x !in batch
    requires (x, target) in db.edges
    requires CurrentAt(db.nodes, db.edges, x)
    requires BatchMid(db, target, batch).nodes[target].statementHash != db.nodes[target].statementHash
    ensures Hopeless(BatchMid(db, target, batch).nodes, BatchMid(db, target, batch).edges, target, x)
  {
    assert CarriesHash(db.nodes[x].statementHash, target, db.nodes[target].statementHash);
    assert (x, target) in BatchMid(db, target, batch).edges;
  }

  lemma OutsiderCurrent(db: Db, target: Label, batch: Batch, x: Label)
    requires BatchReady(db, target, batch) && x in db.nodes && x !in batch && EdgesInside(db.nodes, db.edges)
    requires (x, target) in db.edges ==>
               BatchMid(db, target, batch).nodes[target].statementHash == HashOf(db.nodes, target)
    ensures CurrentAt(BatchMid(db, target, batch).nodes, BatchMid(db, target, batch).edges, x)
       <==> CurrentAt(db.nodes, db.edges, x)
  {
    var mid := BatchMid(db, target, batch);
    forall d ensures (x, d) in mid.edges <==> (x, d) in db.edges {
    }
    forall d | (x, d) in db.edges
      ensures d in mid.nodes && d in db.nodes && mid.nodes[d].statementHash == db.nodes[d].statementHash {
    }
  }

  /** What the walk of a cascading batch starts from. */
  lemma BatchWalkReady(db: Db, target: Label, batch: Batch)
    requires EdgesCurrent(db.nodes, db.edges) && EdgesInside(db.nodes, db.edges) && BatchReady(db, target, batch)
    requires target in db.nodes
    requires Valid(BatchMid(db, target, batch))
    requires BatchMid(db, target, batch).nodes[target].statementHash != db.nodes[target].statementHash
    ensures WalkReady(BatchMid(db, target, batch).nodes, BatchMid(db, target, batch).edges,
                      BatchStale(db, target, batch), target)
  {
    var mid, stale := BatchMid(db, target, batch), BatchStale(db, target, batch);
    forall x | x in stale ensures x in mid.nodes && Hopeless(mid.nodes, mid.edges, target, x) {
      if x in batch {
        MemberHopeless(db, target, batch, x);
      } else {
        assert (x, target) in db.edges && CurrentAt(db.nodes, db.edges, x);
        OutsiderHopeless(db, target, batch, x);
      }
    }
    forall x | x in mid.nodes && x !in stale
      ensures CurrentAt(mid.nodes, mid.edges, x) && ((x, target) in mid.edges ==> CoherentAt(mid.nodes, mid.edges, x))
    {
      NotStaleReady(db, target, batch, x);
    }
  }

  lemma NotStaleReady(db: Db, target: Label, batch: Batch, x: Label)
    requires EdgesCurrent(db.nodes, db.edges) && EdgesInside(db.nodes, db.edges) && BatchReady(db, target, batch)
    requires Acyclic(BatchMid(db, target, batch).edges)
    requires x in BatchMid(db, target, batch).nodes && x !in BatchStale(db, target, batch)
    ensures var mid := BatchMid(db, target, batch);
            CurrentAt(mid.nodes, mid.edges, x) && ((x, target) in mid.edges ==> CoherentAt(mid.nodes, mid.edges, x))
  {
    if x in batch {
      MemberCurrent(db, target, batch, x);
      MemberCoherent(db, target, batch, x);
    } else {
      assert CurrentAt(db.nodes, db.edges, x);
      assert (x, target) in db.edges ==> x in BatchStale(db, target, batch);
      OutsiderCurrent(db, target, batch, x);
    }
  }

  /** The turns of the cascade after a batch are those of the walk on the graph. */
  lemma BatchTurnsTaken(db: Db, target: Label, batch: Batch)
    requires EdgesCurrent(db.nodes, db.edges) && EdgesInside(db.nodes, db.edges) && BatchReady(db, target, batch)
    requires target in db.nodes
    requires Valid(BatchMid(db, target, batch))
    requires BatchMid(db, target, batch).nodes[target].statementHash != db.nodes[target].statementHash
    ensures var mid := BatchMid(db, target, batch);
            var o, t := CascadeFrom(mid.nodes, mid.edges, target), BatchTurns(db, target, batch);
            && o.popped == t.popped && o.changed == t.moved
            && (PopsDepsFirst(mid.edges, o) <==> MovesFirst(BatchEdgesOf(db, batch), t))
  {
    var mid := BatchMid(db, target, batch);
    MidGraph(db, target, batch);
    BatchWalkReady(db, target, batch);
    ValidRowsHashed(mid);
    CascadeTurns(mid.nodes, mid.edges, BatchStale(db, target, batch), target);
  }

  lemma MidGraph(db: Db, target: Label, batch: Batch)
    requires BatchReady(db, target, batch)
    ensures BatchMid(db, target, batch).nodes.Keys == db.nodes.Keys + batch.Keys
    ensures BatchMid(db, target, batch).edges == BatchEdgesOf(db, batch)
  {
  }

  /** A batch that moves the statement hash of an existing target keeps coherence exactly when, on
      the graph, no label has its turn before a label that moves and that it cites, and the members
      without a turn cite no missing label. */
  lemma MovedBatchCoherence(db: Db, target: Label, batch: Batch)
    requires Coherent(db.nodes, db.edges) && EdgesInside(db.nodes, db.edges) && BatchReady(db, target, batch)
    requires target in db.nodes
    requires Valid(BatchMid(db, target, batch))
    requires BatchMid(db, target, batch).nodes[target].statementHash != db.nodes[target].statementHash
    ensures var mid := BatchMid(db, target, batch);
            var t := BatchTurns(db, target, batch);
            Coherent(CascadeFrom(mid.nodes, mid.edges, target).nodes, mid.edges)
            <==> MovesFirst(BatchEdgesOf(db, batch), t) && MembersResolve(db, batch, batch.Keys - Elements(t.popped))
  {
    var mid := BatchMid(db, target, batch);
    var o := CascadeFrom(mid.nodes, mid.edges, target);
    ValidRowsHashed(mid);
    CascadeCoherence(mid.nodes, mid.edges, target);
    AllCoherentIsCurrent(db.nodes, db.edges);
    BatchTurnsTaken(db, target, batch);
    WithoutTurnCoherent(db, target, batch, o.popped);
  }

  /** Which nodes without a turn are coherent after a cascading batch, before its cascade. */
  lemma WithoutTurnCoherent(db: Db, target: Label, batch: Batch, popped: seq<Label>)
    requires Coherent(db.nodes, db.edges) && EdgesInside(db.nodes, db.edges) && BatchReady(db, target, batch)
    requires target in db.nodes
    requires Valid(BatchMid(db, target, batch))
    requires popped == CascadeFrom(BatchMid(db, target, batch).nodes, BatchMid(db, target, batch).edges, target).popped
    ensures var mid := BatchMid(db, target, batch);
            (forall x :: x in mid.nodes && x !in popped ==> CoherentAt(mid.nodes, mid.edges, x))
            <==> MembersResolve(db, batch, batch.Keys - Elements(popped))
  {
    var mid := BatchMid(db, target, batch);
    ValidRowsHashed(mid);
    forall x | x in mid.nodes && x !in popped
      ensures CoherentAt(mid.nodes, mid.edges, x)
         <==> (x in batch ==> RefsKnown(db.nodes.Keys + batch.Keys, DraftRefs(batch[x])))
    {
      if x in batch {
        MemberResolved(db, target, batch, x);
      } else {
        DirectDependentsPopped(mid, target, x);
        OutsiderCoherent(db, target, batch, x);
      }
    }
  }

  lemma MemberResolved(db: Db, target: Label, batch: Batch, x: Label)
    requires BatchReady(db, target, batch) && x in batch && Acyclic(BatchMid(db, target, batch).edges)
    ensures CoherentAt(BatchMid(db, target, batch).nodes, BatchMid(db, target, batch).edges, x)
       <==> RefsKnown(db.nodes.Keys + batch.Keys, DraftRefs(batch[x]))
  {
    MemberCoherent(db, target, batch, x);
    MidGraph(db, target, batch);
  }

  lemma DirectDependentsPopped(db: Db, start: Label, x: Label)
    requires RowsHashed(db.nodes) && x in db.nodes && x !in CascadeFrom(db.nodes, db.edges, start).popped
    ensures (x, start) !in db.edges
  {
    CascadeShape(db.nodes, db.edges, SortedLabels(DependentsOf(db.edges, start)), {});
    assert (x, start) in db.edges ==> x in DependentsOf(db.edges, start);
  }

  lemma BatchIsStatementChange(db: Db, target: Label, batch: Batch)
    requires EdgesInside(db.nodes, db.edges) && BatchReady(db, target, batch) && target in db.nodes
    requires Valid(BatchMid(db, target, batch))
    requires BatchMid(db, target, batch).nodes[target].statementHash != db.nodes[target].statementHash
    ensures var mid := BatchMid(db, target, batch);
            StatementChange(db.nodes, db.edges, mid.nodes, mid.edges, target)
  {
    ValidRowsHashed(BatchMid(db, target, batch));
  }

  lemma AcceptedBatch(db: Db, target: Label, entries: seq<BatchEntry>)
    requires Valid(db) && ApplyBatch(db, target, entries).Accept?
    ensures BatchReady(db, target, BatchOf(entries)) && Valid(BatchMid(db, target, BatchOf(entries)))
    ensures var mid := BatchMid(db, target, BatchOf(entries));
            ApplyBatch(db, target, entries).db
            == if target in db.nodes then WithCascade(mid, target, db.nodes[target]) else mid
  {
    BatchDbKeeps(db, target, entries, Staging(db.nodes, BatchOf(entries)));
  }

  /** generator.batch_committed keeps coherence exactly under the condition of the two cases above. */
  lemma BatchCoherence(db: Db, target: Label, entries: seq<BatchEntry>)
    requires Valid(db) && Coherent(db.nodes, db.edges) && ApplyBatch(db, target, entries).Accept?
    ensures BatchReady(db, target, BatchOf(entries))
    ensures var db' := ApplyBatch(db, target, entries).db;
            var batch := BatchOf(entries);
            var mid := BatchMid(db, target, batch);
            var t := BatchTurns(db, target, batch);
            Coherent(db'.nodes, db'.edges) <==>
            if target in db.nodes && mid.nodes[target].statementHash != db.nodes[target].statementHash
            then MovesFirst(BatchEdgesOf(db, batch), t) && MembersResolve(db, batch, batch.Keys - Elements(t.popped))
            else MembersResolve(db, batch, batch.Keys)
  {
    var batch := BatchOf(entries);
    AcceptedBatch(db, target, entries);
    if target in db.nodes && BatchMid(db, target, batch).nodes[target].statementHash != db.nodes[target].statementHash {
      MovedBatchCoherence(db, target, batch);
    } else {
      QuietBatchCoherence(db, target, batch);
    }
  }

  /** After a batch that moved the target's statement hash, the same holds of every node that was
      there before, with the dependencies it had before. */
  lemma BatchResets(db: Db, target: Label, entries: seq<BatchEntry>, x: Label)
    requires Valid(db) && ApplyBatch(db, target, entries).Accept?
    requires target in db.nodes && x in db.nodes && x != target
    ensures ResetBy(db, ApplyBatch(db, target, entries).db, target, x, CurrentPart(db.nodes, db.edges))
    ensures EdgesCurrent(db.nodes, db.edges) ==> ResetBy(db, ApplyBatch(db, target, entries).db, target, x, db.edges)
  {
    if EdgesCurrent(db.nodes, db.edges) {
      AllCurrentPart(db.nodes, db.edges);
    }
    var batch := BatchOf(entries);
    AcceptedBatch(db, target, entries);
    var mid := BatchMid(db, target, batch);
    if mid.nodes[target].statementHash != db.nodes[target].statementHash {
      StartKeepsHash(mid, target);
      BatchIsStatementChange(db, target, batch);
      CascadeResets(db.nodes, db.edges, mid.nodes, mid.edges, target, x);
    }
  }
}
