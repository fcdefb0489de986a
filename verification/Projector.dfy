/** The imperative projector (librarian/projector.py, class Projector), proved to realise
    Projection.Apply step by step on the stateful backend. */
module ProjectorImpl {
  import opened Backend
  import opened BatchGraphs
  import opened Graphs
  import opened Hashing
  import opened Hints
  import opened Invariants
  import opened Kahn
  import opened Labels
  import opened MerkleCascade
  import opened Projection
  import opened Search
  import opened Store
  import opened Texts

  /** A handler returns its target or raises ProjectionRejection. */
  datatype Handled = Done(target: Label) | Rejected(reason: Reason)

  ghost predicate Realises(handled: Handled, db: Db, decision: Decision) {
    match decision
    case Accept(db', target) => handled == Done(target) && db == db'
    case Reject(reason) => handled == Rejected(reason)
  }

  /** Refs without a node are sinks, so leaving their edges out changes no cycle. */
  lemma DanglingHarmless(nodes: Nodes, edges: Graph<Label>, name: Label, refs: seq<Label>)
    requires EdgesInside(nodes, edges) && name in nodes
    ensures Acyclic(Rewire(edges, name, Elements(refs))) <==> Acyclic(Rewire(edges, name, Resolved(nodes, refs)))
  {
    SinkEdgesHarmless(Rewire(edges, name, Resolved(nodes, refs)), Rewire(edges, name, Elements(refs)));
  }

  lemma AdjacencyGrows(g: Graph<Label>, adjacency: Adjacency<Label>, x: Label, refs: seq<Label>)
    requires Lists(adjacency, g) && forall e :: e in g ==> e.0 != x
    ensures Lists(adjacency[x := Neighbours(adjacency, x) + refs], Rewire(g, x, Elements(refs)))
  {
    forall e: (Label, Label)
      ensures e in Rewire(g, x, Elements(refs))
         <==> e.1 in Neighbours(adjacency[x := Neighbours(adjacency, x) + refs], e.0)
    {
      assert e.1 !in Neighbours(adjacency, x) by {
        assert (x, e.1) !in g;
      }
    }
  }

  function KnownHashes(nodes: Nodes, names: seq<Label>): map<Label, Hash> {
    map d | d in names && d in nodes :: nodes[d].statementHash
  }

  lemma KnownHashesStep(nodes: Nodes, names: seq<Label>, d: Label)
    ensures KnownHashes(nodes, names + [d])
         == if d in nodes then KnownHashes(nodes, names)[d := nodes[d].statementHash] else KnownHashes(nodes, names)
  {
  }

  lemma EdgeDepsKnown(nodes: Nodes, edges: Graph<Label>, name: Label)
    ensures KnownHashes(nodes, SortedLabels(DepsOf(edges, name))) == EdgeDeps(nodes, edges, name)
  {
  }

  class Projector {
    const kb: KuzuBackend

    constructor (kb: KuzuBackend)
      ensures this.kb == kb
    {
      this.kb := kb;
    }

    method DepHashes(name: Label, refs: seq<Label>) returns (deps: map<Label, Hash>)
      ensures deps == AssembledDeps(kb.nodes, name, refs)
    {
      deps := map[];
      var i := 0;
      while i < |refs|
        invariant 0 <= i <= |refs|
        invariant deps == AssembledDeps(kb.nodes, name, refs[..i])
      {
        var d := refs[i];
        TakeStep(refs, i);
        if d == name {
          deps := deps[d := NoHash];
        } else {
          var row := kb.NodeByLabel(d);
          deps := deps[d := if row.Some? then row.value.statementHash else NoHash];
        }
        i := i + 1;
      }
      TakeAll(refs);
    }

    method AssembleNode(name: Label, kind: Kind, draft: Draft) returns (row: Row)
      ensures row == Assembled(kb.nodes, name, kind, draft)
    {
      var deps := DepHashes(name, RefsOf(draft.statement, draft.proof));
      row := FreshRow(name, kind, draft, deps);
    }

    method ApplyNodeAdded(target: Option<Label>, draft: Option<Draft>) returns (handled: Handled)
      requires Valid(kb.State())
      modifies kb`nodes, kb`edges
      ensures Realises(handled, kb.State(), ApplyAdded(old(kb.State()), target, draft))
    {
      if target.None? || draft.None? || ParseKind(draft.value.kind).None? {
        return Rejected(Schema);
      }
      var name, kind := target.value, ParseKind(draft.value.kind).value;
      if !ContentFits(name, kind, draft.value) {
        return Rejected(Schema);
      }
      var existing := kb.NodeByLabel(name);
      if existing.Some? {
        return Rejected(LabelConflict);
      }
      var row := AssembleNode(name, kind, draft.value);
      var cycle := kb.WouldIntroduceCycle(name, Refs(row));
      ghost var nodes := kb.nodes[name := row];
      DanglingHarmless(nodes, kb.edges, name, Refs(row));
      if cycle.Some? {
        return Rejected(Cycle);
      }
      kb.CreateNode(name, row);
      return Done(name);
    }

    method CascadeStatementChange(start: Label)
      modifies kb`nodes
      ensures kb.nodes == CascadeFrom(old(kb.nodes), kb.edges, start).nodes
    {
      var seen: set<Label> := {};
      var frontier := kb.DependentsOf(start);
      while frontier != []
        invariant Cascade(kb.nodes, kb.edges, frontier, seen).nodes == CascadeFrom(old(kb.nodes), kb.edges, start).nodes
        decreases kb.nodes.Keys - seen, |frontier|
      {
        var name := frontier[0];
        frontier := frontier[1..];
        if name !in seen {
          ghost var before := kb.nodes.Keys - seen;
          seen := seen + {name};
          var row := kb.NodeByLabel(name);
          if row.Some? {
            var deps := CurrentDepHashes(name);
            var sh := StatementHash(name, row.value.kind, row.value.statement, deps);
            var vh := VerificationHash(sh, row.value.proof);
            assert name in before;
            if sh != row.value.statementHash || vh != row.value.verificationHash {
              var updated := row.value.(statementHash := sh, verificationHash := vh);
              if sh != row.value.statementHash {
                updated := updated.(repairCount := 0);
              }
              if vh != row.value.verificationHash {
                updated := updated.(hint := "", report := "",
                passCount := if !RequiresProof(row.value.kind) || row.value.proof != "" then 0 else -1);
              }
              assert updated == Rehashed(kb.nodes, kb.edges, name);
              assert kb.nodes[name := updated].Keys == kb.nodes.Keys;
              kb.SetNodeFields(name, updated);
              var more := kb.DependentsOf(name);
              frontier := frontier + more;
            }
          }
        }
      }
    }

    method CurrentDepHashes(name: Label) returns (deps: map<Label, Hash>)
      ensures deps == EdgeDeps(kb.nodes, kb.edges, name)
    {
      deps := map[];
      var names := kb.DependenciesOf(name);
      var i := 0;
      while i < |names|
        invariant 0 <= i <= |names|
        invariant deps == KnownHashes(kb.nodes, names[..i])
      {
        TakeStep(names, i);
        KnownHashesStep(kb.nodes, names[..i], names[i]);
        var row := kb.NodeByLabel(names[i]);
        if row.Some? {
          deps := deps[names[i] := row.value.statementHash];
        }
        i := i + 1;
      }
      TakeAll(names);
      EdgeDepsKnown(kb.nodes, kb.edges, name);
    }

    method ApplyNodeRevised(target: Option<Label>, draft: Option<Draft>) returns (handled: Handled)
      requires Valid(kb.State())
      modifies kb`nodes, kb`edges
      ensures Realises(handled, kb.State(), ApplyRevised(old(kb.State()), target, draft))
    {
      if target.None? {
        return Rejected(Schema);
      }
      var name := target.value;
      var existing := kb.NodeByLabel(name);
      if existing.None? {
        return Rejected(RefMissing);
      }
      if draft.None? || ParseKind(draft.value.kind).None? {
        return Rejected(Schema);
      }
      var kind := ParseKind(draft.value.kind).value;
      if kind != existing.value.kind {
        return Rejected(KindMutation);
      }
      if !ContentFits(name, kind, draft.value) {
        return Rejected(Schema);
      }
      handled := ReviseNode(name, existing.value, kind, draft.value);
    }

    /** The cycle check and the writes of a revision whose other checks passed. */
    method ReviseNode(name: Label, existing: Row, kind: Kind, draft: Draft) returns (handled: Handled)
      requires Valid(kb.State()) && name in kb.nodes && existing == kb.nodes[name]
      modifies kb`nodes, kb`edges
      ensures var db' := RevisedDb(old(kb.State()), name, kind, draft);
              Realises(handled, kb.State(), if Acyclic(db'.edges) then Accept(WithCascade(db', name, existing), name)
                       else Reject(Cycle))
    {
      var cycle := kb.WouldIntroduceCycle(name, RefsOf(draft.statement, draft.proof));
      var row := AssembleNode(name, kind, draft);
      var revised := Revised(existing, row);
      DanglingHarmless(kb.nodes[name := revised], kb.edges, name, Refs(revised));
      if cycle.Some? {
        return Rejected(Cycle);
      }
      OverwriteNode(name, existing, revised);
      return Done(name);
    }

    /** Writes the revised row and lets a new statement hash cascade. */
    method OverwriteNode(name: Label, prior: Row, row: Row)
      requires name in kb.nodes
      modifies kb`nodes, kb`edges
      ensures kb.State() == WithCascade(PutNode(old(kb.State()), name, row), name, prior)
    {
      kb.UpdateNode(name, row);
      if row.statementHash != prior.statementHash {
        CascadeStatementChange(name);
      }
    }

    method ApplyHintAttached(target: Option<Label>, hint: string, stamp: string) returns (handled: Handled)
      modifies kb`nodes
      ensures Realises(handled, kb.State(), ApplyHint(old(kb.State()), target, hint, stamp))
    {
      if target.None? || Strip(hint) == "" {
        return Rejected(Schema);
      }
      var existing := kb.NodeByLabel(target.value);
      if existing.None? {
        return Rejected(HintTargetMissing);
      }
      if existing.value.passCount >= 1 {
        return Rejected(HintTargetUnreachable);
      }
      kb.SetNodeFields(target.value, existing.value.(hint := AttachUserSection(existing.value.hint, stamp, hint)));
      return Done(target.value);
    }

    method ApplyVerifierRun(target: Option<Label>, run: Option<Run>) returns (handled: Handled)
      modifies kb`nodes
      ensures Realises(handled, kb.State(), ApplyVerdict(old(kb.State()), target, run))
    {
      if target.None? || run.None? || run.value.verdict !in {"accepted", "gap", "critical"} {
        return Rejected(Schema);
      }
      var existing := kb.NodeByLabel(target.value);
      if existing.None? {
        return Rejected(RefMissing);
      }
      if run.value.verificationHash != existing.value.verificationHash {
        return Rejected(HashMismatch);
      }
      kb.SetNodeFields(target.value, VerdictRow(existing.value, run.value));
      return Done(target.value);
    }

    // ---- generator.batch_committed ----

    method StagedDepHashes(hashes: map<Label, Hash>, name: Label, refs: seq<Label>) returns (deps: map<Label, Hash>)
      ensures deps == StagedDeps(kb.nodes, hashes, name, refs)
    {
      deps := map[];
      var i := 0;
      while i < |refs|
        invariant 0 <= i <= |refs|
        invariant deps == StagedDeps(kb.nodes, hashes, name, refs[..i])
      {
        var d := refs[i];
        TakeStep(refs, i);
        if d == name {
          deps := deps[d := NoHash];
        } else if d in hashes {
          deps := deps[d := hashes[d]];
        } else {
          var row := kb.NodeByLabel(d);
          deps := deps[d := if row.Some? then row.value.statementHash else NoHash];
        }
        i := i + 1;
      }
      TakeAll(refs);
    }

    /** Hashes the batch in the given order; the result does not depend on which order it is. */
    method StageBatch(batch: Batch, order: seq<Label>) returns (hashes: map<Label, Hash>)
      requires KindsParse(batch) && Distinct(order) && Topological(BatchGraph(batch), order)
      requires forall x :: x in batch <==> x in order
      ensures IsStaging(kb.nodes, batch, hashes)
    {
      hashes := map[];
      var i := 0;
      while i < |order|
        invariant 0 <= i <= |order|
        invariant hashes.Keys == Elements(order[..i])
        invariant PartlyStaged(kb.nodes, batch, hashes)
      {
        var x := order[i];
        TakeStep(order, i);
        assert x in order && x !in order[..i];
        forall d | (x, d) in BatchGraph(batch) ensures d in hashes {
          assert d in order[..i];
        }
        StageOneKeeps(kb.nodes, batch, hashes, x);
        var deps := StagedDepHashes(hashes, x, DraftRefs(batch[x]));
        hashes := hashes[x := StatementHash(x, KindIn(batch, x), batch[x].statement, deps)];
        i := i + 1;
      }
      TakeAll(order);
    }

    /** The edges of labels outside the batch, as adjacency lists. */
    method OutsideAdjacency(batch: Batch) returns (adjacency: Adjacency<Label>)
      requires Acyclic(kb.edges)
      ensures Lists(adjacency, GraphUpTo(kb.edges, batch, [])) && Acyclic(GraphUpTo(kb.edges, batch, []))
    {
      var outside := set e | e in kb.edges && e.0 !in batch;
      assert GraphUpTo(kb.edges, batch, []) == outside;
      SubgraphAcyclic(outside, kb.edges);
      AdjacencyLists(outside);
      adjacency := AdjacencyOf(outside);
    }

    /** Checks the refs of one label against the running graph and adds them to it. */
    method CheckNext(batch: Batch, ghost placed: seq<Label>, x: Label, adjacency: Adjacency<Label>)
      returns (closes: bool, adjacency': Adjacency<Label>)
      requires x in batch && x !in placed
      requires Lists(adjacency, GraphUpTo(kb.edges, batch, placed)) && Acyclic(GraphUpTo(kb.edges, batch, placed))
      ensures closes <==> !Acyclic(GraphUpTo(kb.edges, batch, placed + [x]))
      ensures Lists(adjacency', GraphUpTo(kb.edges, batch, placed + [x]))
    {
      ghost var g := GraphUpTo(kb.edges, batch, placed);
      var refs := DraftRefs(batch[x]);
      GraphUpToStep(kb.edges, batch, placed, x);
      RewireAcyclic(g, x, Elements(refs));
      closes := AnyReaches(g, adjacency, refs, x);
      AdjacencyGrows(g, adjacency, x, refs);
      adjacency' := adjacency[x := Neighbours(adjacency, x) + refs];
    }

    /** The check of all new edges against the store and against each other. */
    method BatchClosesCycle(batch: Batch, order: seq<Label>) returns (closes: bool)
      requires Acyclic(kb.edges) && EdgesInside(kb.nodes, kb.edges)
      requires Distinct(order) && forall x :: x in batch <==> x in order
      ensures closes <==> !Acyclic(BatchEdges(kb.edges, kb.nodes.Keys + batch.Keys, batch))
    {
      WrittenCycles(kb.edges, kb.nodes, batch, order);
      var adjacency := OutsideAdjacency(batch);
      var i := 0;
      while i < |order|
        invariant 0 <= i <= |order|
        invariant Lists(adjacency, GraphUpTo(kb.edges, batch, order[..i]))
        invariant Acyclic(GraphUpTo(kb.edges, batch, order[..i]))
      {
        var x := order[i];
        assert x in order;
        TakeStep(order, i);
        closes, adjacency := CheckNext(batch, order[..i], x, adjacency);
        if closes {
          ghost var upTo, all := GraphUpTo(kb.edges, batch, order[..i + 1]), GraphUpTo(kb.edges, batch, order);
          GraphUpToGrows(kb.edges, batch, order[..i + 1], order);
          if Acyclic(all) {
            SubgraphAcyclic(upTo, all);
          }
          return;
        }
        i := i + 1;
      }
      TakeAll(order);
      closes := false;
    }

    method AnyReaches(ghost g: Graph<Label>, adjacency: Adjacency<Label>, refs: seq<Label>, x: Label)
      returns (reaches: bool)
      requires Lists(adjacency, g)
      ensures reaches <==> exists d :: d in Elements(refs) && Reaches(g, d, x)
    {
      var i := 0;
      while i < |refs|
        invariant 0 <= i <= |refs|
        invariant forall d :: d in refs[..i] ==> !Reaches(g, d, x)
      {
        // The source treats a self-reference first; BfsPath finds it as the empty path.
        var path := BfsPath(g, adjacency, refs[i], x);
        if path.Some? {
          assert refs[i] in Elements(refs);
          return true;
        }
        TakeStep(refs, i);
        i := i + 1;
      }
      TakeAll(refs);
      return false;
    }

    method WriteOne(existing: Option<Row>, target: Label, batch: Batch, hashes: map<Label, Hash>, x: Label,
                    ghost before: Nodes)
      requires KindsParse(batch) && hashes.Keys == batch.Keys && x in batch
      requires existing == if target in before then Some(before[target]) else None
      requires x in kb.nodes <==> x in before
      requires x != target ==> x !in before
      modifies kb`nodes, kb`edges
      ensures kb.State() == PutNode(old(kb.State()), x, BatchRow(before, target, batch, hashes, x))
    {
      var staged := StagedRow(batch, hashes, x);
      if x == target && existing.Some? {
        kb.UpdateNode(x, Revised(existing.value, staged));
      } else {
        kb.CreateNode(x, staged);
      }
    }

    method WriteBatch(existing: Option<Row>, target: Label, batch: Batch, hashes: map<Label, Hash>, order: seq<Label>)
      requires KindsParse(batch) && hashes.Keys == batch.Keys && Distinct(order)
      requires Topological(BatchGraph(batch), order)
      requires forall x :: x in batch <==> x in order
      requires forall x :: x in batch && x != target ==> x !in kb.nodes
      requires existing == if target in kb.nodes then Some(kb.nodes[target]) else None
      modifies kb`nodes, kb`edges
      ensures kb.State() == BatchDb(old(kb.State()), target, batch, hashes)
    {
      ghost var db, placed := kb.State(), order[..0];
      var i := 0;
      while i < |order|
        invariant 0 <= i <= |order| && placed == order[..i]
        invariant WrittenTo(db, kb.State(), target, batch, hashes, placed)
      {
        var x := order[i];
        NextIsNew(order, i);
        NotYetWritten(db, kb.State(), target, batch, hashes, placed, x);
        WrittenStep(db, kb.State(), target, batch, hashes, placed, x);
        WriteOne(existing, target, batch, hashes, x, db.nodes);
        i, placed := i + 1, placed + [x];
      }
      TakeAll(order);
      WrittenAll(db, kb.State(), target, batch, hashes, order);
    }

    method CommitOrderedBatch(target: Label, batch: Batch, order: seq<Label>) returns (handled: Handled)
      requires KindsParse(batch) && target in batch && Acyclic(BatchGraph(batch))
      requires Acyclic(kb.edges) && EdgesInside(kb.nodes, kb.edges)
      requires forall x :: x in batch && x != target ==> x !in kb.nodes
      requires Distinct(order) && Topological(BatchGraph(batch), order) && forall x :: x in batch <==> x in order
      modifies kb`nodes, kb`edges
      ensures Realises(handled, kb.State(), CommitBatch(old(kb.State()), target, batch))
    {
      var hashes := StageBatch(batch, order);
      StagingUnique(kb.nodes, batch, hashes, Staging(kb.nodes, batch));
      var existing := kb.NodeByLabel(target);
      if existing.Some? && existing.value.kind != KindIn(batch, target) {
        return Rejected(KindMutation);
      }
      var closes := BatchClosesCycle(batch, order);
      if closes {
        return Rejected(Cycle);
      }
      WriteBatch(existing, target, batch, hashes, order);
      if existing.Some? && hashes[target] != existing.value.statementHash {
        CascadeStatementChange(target);
      }
      return Done(target);
    }

    method ApplyGeneratorBatch(target: Label, entries: seq<BatchEntry>) returns (handled: Handled)
      requires Valid(kb.State())
      modifies kb`nodes, kb`edges
      ensures Realises(handled, kb.State(), ApplyBatch(old(kb.State()), target, entries))
    {
      if !BatchFits(target, entries) {
        return Rejected(Schema);
      }
      var batch := BatchOf(entries);
      if exists x :: x in batch && x != target && x in kb.nodes {
        return Rejected(LabelConflict);
      }
      var order := LayeredOrder(BatchGraph(batch), batch.Keys);
      if order.None? {
        return Rejected(Cycle);
      }
      handled := CommitOrderedBatch(target, batch, order.value);
    }

    // ---- public entry ----

    method Dispatch(event: Event) returns (handled: Handled)
      requires Valid(kb.State())
      modifies kb`nodes, kb`edges
      ensures Realises(handled, kb.State(), Decide(old(kb.State()), event))
    {
      match event.body
      case NodeAdded(draft) => handled := ApplyNodeAdded(event.target, draft);
      case NodeRevised(draft) => handled := ApplyNodeRevised(event.target, draft);
      case HintAttached(hint, stamp) => handled := ApplyHintAttached(event.target, hint, stamp);
      case BatchCommitted(target, entries) => handled := ApplyGeneratorBatch(target, entries);
      case VerifierRun(run) => handled := ApplyVerifierRun(event.target, run);
    }

    /** Applies one event in a transaction. Re-applying a decided event returns the stored
        outcome and touches nothing; a rejection is recorded on the rolled-back state. */
    method Apply(event: Event) returns (result: ApplyResult)
      requires Valid(kb.State()) && kb.saved == None
      modifies kb
      ensures (kb.State(), result) == Projection.Apply(old(kb.State()), event)
      ensures kb.saved == None && Valid(kb.State())
    {
      ghost var before := kb.State();
      ApplyKeepsValid(before, event);
      if !event.admissible {
        return Corruption;
      }
      var recorded := kb.FindApplied(event.id);
      if recorded.Some? {
        return if recorded.value.sha != event.sha then Corruption else ResultOf(recorded.value);
      }
      kb.Begin();
      var handled := Dispatch(event);
      match handled
      case Done(target) =>
        kb.RecordApplied(event.id, AppliedEvent(None, event.sha, Some(target)));
        kb.Commit();
        return Applied;
      case Rejected(reason) =>
        kb.Rollback();
        kb.Begin();
        kb.RecordApplied(event.id, AppliedEvent(Some(reason), event.sha, event.target));
        kb.Commit();
        return ApplyFailed(reason);
    }
  }
}
