/** In every reachable state the edges can be read off the hashes: a node has an edge to d exactly
    when its statement hash carries a hash for d that is not the empty string. */
module EdgeHashes {
  import opened Coherence
  import opened Graphs
  import opened Hashing
  import opened Invariants
  import opened Labels
  import opened MerkleCascade
  import opened Projection
  import opened Search
  import opened Store

  ghost predicate Commits(h: Hash, d: Label) {
    h.StatementHash? && d in h.deps && h.deps[d] != NoHash
  }

  ghost predicate ReadableAt(nodes: Nodes, edges: Graph<Label>, x: Label) {
    x in nodes ==>
      && nodes[x].statementHash != NoHash
      && forall d :: (x, d) in edges <==> Commits(nodes[x].statementHash, d)
  }

  ghost predicate EdgesReadable(nodes: Nodes, edges: Graph<Label>) {
    forall x :: x in nodes ==> ReadableAt(nodes, edges, x)
  }

  lemma AssembledReadable(db: Db, name: Label, row: Row)
    requires row.statementHash == StatementHash(name, row.kind, row.statement, AssembledDeps(db.nodes, name, Refs(row)))
    requires EdgesReadable(db.nodes, db.edges) && name !in Refs(row)
    ensures ReadableAt(PutNode(db, name, row).nodes, PutNode(db, name, row).edges, name)
  {
    var db' := PutNode(db, name, row);
    forall d ensures (name, d) in db'.edges <==> Commits(row.statementHash, d) {
      assert (name, d) in db'.edges <==> d in Refs(row) && d in db'.nodes;
      assert d in db.nodes ==> ReadableAt(db.nodes, db.edges, d);
    }
  }

  lemma PutReadable(db: Db, name: Label, row: Row)
    requires row.statementHash == StatementHash(name, row.kind, row.statement, AssembledDeps(db.nodes, name, Refs(row)))
    requires EdgesReadable(db.nodes, db.edges) && Acyclic(PutNode(db, name, row).edges)
    ensures EdgesReadable(PutNode(db, name, row).nodes, PutNode(db, name, row).edges)
  {
    var db' := PutNode(db, name, row);
    if name in Refs(row) {
      SelfReferenceCycles(db, name, row);
    }
    AssembledReadable(db, name, row);
    forall x | x in db'.nodes && x != name ensures ReadableAt(db'.nodes, db'.edges, x) {
      assert ReadableAt(db.nodes, db.edges, x);
      assert forall d :: (x, d) in db'.edges <==> (x, d) in db.edges;
    }
  }

  lemma MemberReadable(db: Db, target: Label, batch: Batch, x: Label)
    requires EdgesReadable(db.nodes, db.edges) && BatchReady(db, target, batch)
    requires Acyclic(BatchMid(db, target, batch).edges)
    requires x in batch
    ensures ReadableAt(BatchMid(db, target, batch).nodes, BatchMid(db, target, batch).edges, x)
  {
    var mid := BatchMid(db, target, batch);
    MemberHash(db, target, batch, x);
    MemberNotSelf(db, target, batch, x);
    forall d ensures (x, d) in mid.edges <==> Commits(mid.nodes[x].statementHash, d) {
      MemberCommits(db, target, batch, x, d);
    }
  }

  lemma MemberCommits(db: Db, target: Label, batch: Batch, x: Label, d: Label)
    requires EdgesReadable(db.nodes, db.edges) && BatchReady(db, target, batch)
    requires x in batch && x !in DraftRefs(batch[x])
    ensures var mid := BatchMid(db, target, batch); (x, d) in mid.edges <==> Commits(mid.nodes[x].statementHash, d)
  {
    var mid, hashes := BatchMid(db, target, batch), Staging(db.nodes, batch);
    MemberHash(db, target, batch, x);
    assert (x, d) in mid.edges <==> d in DraftRefs(batch[x]) && d in mid.nodes;
    if d in batch {
      assert StagedAt(db.nodes, batch, hashes, d);
    }
    assert d in db.nodes ==> ReadableAt(db.nodes, db.edges, d);
  }

  lemma BatchReadable(db: Db, target: Label, batch: Batch)
    requires EdgesReadable(db.nodes, db.edges) && BatchReady(db, target, batch)
    requires Acyclic(BatchMid(db, target, batch).edges)
    ensures EdgesReadable(BatchMid(db, target, batch).nodes, BatchMid(db, target, batch).edges)
  {
    var mid := BatchMid(db, target, batch);
    forall x | x in mid.nodes ensures ReadableAt(mid.nodes, mid.edges, x) {
      if x in batch {
        MemberReadable(db, target, batch, x);
      } else {
        assert ReadableAt(db.nodes, db.edges, x);
        assert forall d :: (x, d) in mid.edges <==> (x, d) in db.edges;
      }
    }
  }

  lemma RehashedReadable(nodes: Nodes, edges: Graph<Label>, name: Label)
    requires EdgesInside(nodes, edges) && EdgesReadable(nodes, edges) && name in nodes
    ensures EdgesReadable(nodes[name := Rehashed(nodes, edges, name)], edges)
  {
    var row := Rehashed(nodes, edges, name);
    forall d ensures (name, d) in edges <==> Commits(row.statementHash, d) {
      assert (name, d) in edges <==> d in DepsOf(edges, name);
      assert d in nodes ==> ReadableAt(nodes, edges, d);
    }
    forall x | x in nodes && x != name ensures ReadableAt(nodes[name := row], edges, x) {
      assert ReadableAt(nodes, edges, x);
    }
  }

  lemma {:induction false} CascadeReadable(nodes: Nodes, edges: Graph<Label>, frontier: seq<Label>, seen: set<Label>)
    requires EdgesInside(nodes, edges) && EdgesReadable(nodes, edges)
    ensures EdgesReadable(Cascade(nodes, edges, frontier, seen).nodes, edges)
    decreases nodes.Keys - seen, |frontier|
  {
    if frontier != [] {
      var name, rest := frontier[0], frontier[1..];
      if name in seen {
        CascadeReadable(nodes, edges, rest, seen);
      } else if name !in nodes {
        assert nodes.Keys - (seen + {name}) == nodes.Keys - seen;
        CascadeReadable(nodes, edges, rest, seen + {name});
      } else {
        var row := Rehashed(nodes, edges, name);
        assert name in nodes.Keys - seen;
        if row == nodes[name] {
          CascadeReadable(nodes, edges, rest, seen + {name});
        } else {
          assert nodes[name := row].Keys == nodes.Keys;
          RehashedReadable(nodes, edges, name);
          CascadeReadable(nodes[name := row], edges, rest + SortedLabels(DependentsOf(edges, name)), seen + {name});
        }
      }
    }
  }

  lemma WithCascadeReadable(db: Db, name: Label, prior: Row)
    requires EdgesInside(db.nodes, db.edges) && EdgesReadable(db.nodes, db.edges) && name in db.nodes
    ensures EdgesReadable(WithCascade(db, name, prior).nodes, WithCascade(db, name, prior).edges)
  {
    CascadeReadable(db.nodes, db.edges, SortedLabels(DependentsOf(db.edges, name)), {});
  }

  lemma AddedReadable(db: Db, target: Option<Label>, draft: Option<Draft>)
    requires EdgesReadable(db.nodes, db.edges) && ApplyAdded(db, target, draft).Accept?
    ensures EdgesReadable(ApplyAdded(db, target, draft).db.nodes, ApplyAdded(db, target, draft).db.edges)
  {
    PutReadable(db, target.value, Assembled(db.nodes, target.value, ParseKind(draft.value.kind).value, draft.value));
  }

  lemma RevisedReadable(db: Db, target: Option<Label>, draft: Option<Draft>)
    requires Valid(db) && EdgesReadable(db.nodes, db.edges) && ApplyRevised(db, target, draft).Accept?
    ensures EdgesReadable(ApplyRevised(db, target, draft).db.nodes, ApplyRevised(db, target, draft).db.edges)
  {
    var name, kind := target.value, ParseKind(draft.value.kind).value;
    var mid := RevisedDb(db, name, kind, draft.value);
    RevisedDbValid(db, name, kind, draft.value);
    PutReadable(db, name, mid.nodes[name]);
    WithCascadeReadable(mid, name, db.nodes[name]);
  }

  lemma CommittedReadable(db: Db, target: Label, entries: seq<BatchEntry>)
    requires Valid(db) && EdgesReadable(db.nodes, db.edges) && ApplyBatch(db, target, entries).Accept?
    ensures EdgesReadable(ApplyBatch(db, target, entries).db.nodes, ApplyBatch(db, target, entries).db.edges)
  {
    AcceptedBatch(db, target, entries);
    var mid := BatchMid(db, target, BatchOf(entries));
    BatchReadable(db, target, BatchOf(entries));
    if target in db.nodes {
      WithCascadeReadable(mid, target, db.nodes[target]);
    }
  }

  lemma SameHashesReadable(nodes: Nodes, after: Nodes, edges: Graph<Label>)
    requires EdgesReadable(nodes, edges) && after.Keys == nodes.Keys
    requires forall x :: x in nodes ==> after[x].statementHash == nodes[x].statementHash
    ensures EdgesReadable(after, edges)
  {
    forall x | x in after ensures ReadableAt(after, edges, x) {
      assert ReadableAt(nodes, edges, x);
    }
  }

  lemma HintReadable(db: Db, target: Option<Label>, hint: string, stamp: string)
    requires EdgesReadable(db.nodes, db.edges) && ApplyHint(db, target, hint, stamp).Accept?
    ensures EdgesReadable(ApplyHint(db, target, hint, stamp).db.nodes, ApplyHint(db, target, hint, stamp).db.edges)
  {
    SameHashesReadable(db.nodes, ApplyHint(db, target, hint, stamp).db.nodes, db.edges);
  }

  lemma VerdictReadable(db: Db, target: Option<Label>, run: Option<Run>)
    requires EdgesReadable(db.nodes, db.edges) && ApplyVerdict(db, target, run).Accept?
    ensures EdgesReadable(ApplyVerdict(db, target, run).db.nodes, ApplyVerdict(db, target, run).db.edges)
  {
    SameHashesReadable(db.nodes, ApplyVerdict(db, target, run).db.nodes, db.edges);
  }

  lemma DecideReadable(db: Db, event: Event)
    requires Valid(db) && EdgesReadable(db.nodes, db.edges) && Decide(db, event).Accept?
    ensures EdgesReadable(Decide(db, event).db.nodes, Decide(db, event).db.edges)
  {
    match event.body
    case NodeAdded(draft) => AddedReadable(db, event.target, draft);
    case NodeRevised(draft) => RevisedReadable(db, event.target, draft);
    case HintAttached(hint, stamp) => HintReadable(db, event.target, hint, stamp);
    case BatchCommitted(target, entries) => CommittedReadable(db, target, entries);
    case VerifierRun(run) => VerdictReadable(db, event.target, run);
  }

  /** After any log the hashes tell which edges there are. */
  lemma {:induction false} ReplayReadable(log: seq<Event>)
    ensures EdgesReadable(Replay(log).nodes, Replay(log).edges)
  {
    if log != [] {
      var front, event := log[..|log| - 1], log[|log| - 1];
      ReplayValid(front);
      ReplayReadable(front);
      if event.admissible && event.id !in Replay(front).applied && Decide(Replay(front), event).Accept? {
        DecideReadable(Replay(front), event);
      }
    }
  }
}
