/** What holds of the knowledge base after any log of events whatsoever. */
module Invariants {
  import opened Graphs
  import opened Hashing
  import opened Labels
  import opened MerkleCascade
  import opened Projection
  import opened Search
  import opened Store

  ghost predicate RowValid(row: Row) {
    && row.statementHash.StatementHash?
    && row.verificationHash == VerificationHash(row.statementHash, row.proof)
    && row.passCount >= -1 && row.repairCount >= 0
  }

  ghost predicate LabelsFit(nodes: Nodes) {
    forall x :: x in nodes ==> LabelFits(x, nodes[x].kind)
  }

  ghost predicate EdgesCited(db: Db) {
    forall e :: e in db.edges && e.0 in db.nodes ==> e.1 in Refs(db.nodes[e.0])
  }

  ghost predicate Valid(db: Db) {
    && (forall x :: x in db.nodes ==> RowValid(db.nodes[x]))
    && LabelsFit(db.nodes)
    && EdgesInside(db.nodes, db.edges)
    && EdgesCited(db)
    && Acyclic(db.edges)
  }

  lemma PutNodeKeeps(db: Db, name: Label, row: Row)
    requires Valid(db) && RowValid(row) && LabelFits(name, row.kind) && Acyclic(PutNode(db, name, row).edges)
    ensures Valid(PutNode(db, name, row))
  {
  }

  /** A row that keeps its text may be replaced without touching the edges. */
  lemma SameTextKeeps(db: Db, nodes: Nodes)
    requires Valid(db) && nodes.Keys == db.nodes.Keys
    requires forall x :: x in nodes ==> RowValid(nodes[x]) && SameText(db.nodes[x], nodes[x])
    ensures Valid(db.(nodes := nodes))
  {
    forall e | e in db.edges && e.0 in nodes ensures e.1 in Refs(nodes[e.0]) {
      assert SameText(db.nodes[e.0], nodes[e.0]);
    }
  }

  lemma {:induction false} CascadeRowsValid(nodes: Nodes, edges: Graph<Label>, frontier: seq<Label>, seen: set<Label>)
    requires forall x :: x in nodes ==> RowValid(nodes[x])
    ensures forall x :: x in Cascade(nodes, edges, frontier, seen).nodes ==>
                          RowValid(Cascade(nodes, edges, frontier, seen).nodes[x])
    decreases nodes.Keys - seen, |frontier|
  {
    if frontier != [] {
      var name, rest := frontier[0], frontier[1..];
      if name in seen {
        CascadeRowsValid(nodes, edges, rest, seen);
      } else if name !in nodes {
        assert nodes.Keys - (seen + {name}) == nodes.Keys - seen;
        CascadeRowsValid(nodes, edges, rest, seen + {name});
      } else {
        var row := Rehashed(nodes, edges, name);
        assert name in nodes.Keys - seen;
        assert RowValid(nodes[name]);
        if row == nodes[name] {
          CascadeRowsValid(nodes, edges, rest, seen + {name});
        } else {
          assert nodes[name := row].Keys == nodes.Keys;
          CascadeRowsValid(nodes[name := row], edges, rest + SortedLabels(DependentsOf(edges, name)), seen + {name});
        }
      }
    }
  }

  lemma CascadeFromRows(nodes: Nodes, edges: Graph<Label>, start: Label)
    requires forall x :: x in nodes ==> RowValid(nodes[x])
    ensures var r := CascadeFrom(nodes, edges, start).nodes;
            r.Keys == nodes.Keys && forall x :: x in nodes ==> SameText(nodes[x], r[x]) && RowValid(r[x])
  {
    var frontier := SortedLabels(DependentsOf(edges, start));
    var r := CascadeFrom(nodes, edges, start).nodes;
    assert r == Cascade(nodes, edges, frontier, {}).nodes;
    CascadeRowsValid(nodes, edges, frontier, {});
    CascadeShape(nodes, edges, frontier, {});
  }

  lemma WithCascadeKeeps(db: Db, name: Label, prior: Row)
    requires Valid(db) && name in db.nodes
    ensures Valid(WithCascade(db, name, prior))
  {
    CascadeFromRows(db.nodes, db.edges, name);
    SameTextKeeps(db, CascadeFrom(db.nodes, db.edges, name).nodes);
  }

  lemma AddedKeeps(db: Db, target: Option<Label>, draft: Option<Draft>)
    requires Valid(db) && ApplyAdded(db, target, draft).Accept?
    ensures Valid(ApplyAdded(db, target, draft).db)
  {
    var kind := ParseKind(draft.value.kind).value;
    PutNodeKeeps(db, target.value, Assembled(db.nodes, target.value, kind, draft.value));
  }

  lemma RevisedKeeps(db: Db, target: Option<Label>, draft: Option<Draft>)
    requires Valid(db) && ApplyRevised(db, target, draft).Accept?
    ensures Valid(ApplyRevised(db, target, draft).db)
  {
    var name, kind := target.value, ParseKind(draft.value.kind).value;
    assert RowValid(db.nodes[name]);
    PutNodeKeeps(db, name, Revised(db.nodes[name], Assembled(db.nodes, name, kind, draft.value)));
    WithCascadeKeeps(RevisedDb(db, name, kind, draft.value), name, db.nodes[name]);
  }

  lemma BatchRowValid(nodes: Nodes, target: Label, entries: seq<BatchEntry>, hashes: map<Label, Hash>, x: Label)
    requires BatchFits(target, entries) && IsStaging(nodes, BatchOf(entries), hashes)
    requires x in BatchOf(entries) && (x in nodes ==> RowValid(nodes[x]))
    ensures RowValid(BatchRow(nodes, target, BatchOf(entries), hashes, x))
  {
    assert StagedAt(nodes, BatchOf(entries), hashes, x);
  }

  lemma BatchLabelFits(target: Label, entries: seq<BatchEntry>, x: Label)
    requires BatchFits(target, entries) && x in BatchOf(entries)
    ensures LabelFits(x, KindIn(BatchOf(entries), x))
  {
    var i :| 0 <= i < |entries| && EntryFits(entries[i]) && entries[i].name.value == x;
    assert BatchOf(entries)[x] == entries[i].draft.value;
  }

  lemma BatchEdgesKeep(db: Db, target: Label, batch: Batch, hashes: map<Label, Hash>)
    requires EdgesInside(db.nodes, db.edges) && EdgesCited(db) && KindsParse(batch) && hashes.Keys == batch.Keys
    ensures var db' := BatchDb(db, target, batch, hashes); EdgesInside(db'.nodes, db'.edges) && EdgesCited(db')
  {
    var db' := BatchDb(db, target, batch, hashes);
    forall e | e in db'.edges ensures e.0 in db'.nodes && e.1 in db'.nodes && e.1 in Refs(db'.nodes[e.0]) {
      if e.0 in batch {
        assert e.1 in DraftRefs(batch[e.0]);
      } else {
        assert e in db.edges;
      }
    }
  }

  lemma BatchNodesValid(nodes: Nodes, target: Label, entries: seq<BatchEntry>, hashes: map<Label, Hash>)
    requires BatchFits(target, entries) && IsStaging(nodes, BatchOf(entries), hashes)
    requires forall x :: x in nodes ==> RowValid(nodes[x])
    ensures var r := BatchNodes(nodes, target, BatchOf(entries), hashes); forall x :: x in r ==> RowValid(r[x])
  {
    var batch := BatchOf(entries);
    forall x | x in batch ensures RowValid(BatchRow(nodes, target, batch, hashes, x)) {
      BatchRowValid(nodes, target, entries, hashes, x);
    }
  }

  lemma BatchNodesFit(nodes: Nodes, target: Label, entries: seq<BatchEntry>, hashes: map<Label, Hash>)
    requires BatchFits(target, entries) && hashes.Keys == BatchOf(entries).Keys && LabelsFit(nodes)
    ensures LabelsFit(BatchNodes(nodes, target, BatchOf(entries), hashes))
  {
    var batch := BatchOf(entries);
    var r := BatchNodes(nodes, target, batch, hashes);
    forall x | x in r ensures LabelFits(x, r[x].kind) {
      if x in batch {
        BatchLabelFits(target, entries, x);
        assert r[x].kind == KindIn(batch, x);
      } else {
        assert r[x] == nodes[x];
      }
    }
  }

  lemma BatchDbKeeps(db: Db, target: Label, entries: seq<BatchEntry>, hashes: map<Label, Hash>)
    requires Valid(db) && BatchFits(target, entries) && IsStaging(db.nodes, BatchOf(entries), hashes)
    requires Acyclic(BatchDb(db, target, BatchOf(entries), hashes).edges)
    ensures Valid(BatchDb(db, target, BatchOf(entries), hashes))
  {
    BatchEdgesKeep(db, target, BatchOf(entries), hashes);
    BatchNodesValid(db.nodes, target, entries, hashes);
    BatchNodesFit(db.nodes, target, entries, hashes);
  }

  lemma BatchKeeps(db: Db, target: Label, entries: seq<BatchEntry>)
    requires Valid(db) && ApplyBatch(db, target, entries).Accept?
    ensures Valid(ApplyBatch(db, target, entries).db)
  {
    var batch := BatchOf(entries);
    var hashes := Staging(db.nodes, batch);
    BatchDbKeeps(db, target, entries, hashes);
    if target in db.nodes {
      WithCascadeKeeps(BatchDb(db, target, batch, hashes), target, db.nodes[target]);
    }
  }

  lemma VerdictRowKeeps(row: Row, run: Run)
    requires RowValid(row)
    ensures RowValid(VerdictRow(row, run)) && SameText(row, VerdictRow(row, run))
  {
  }

  lemma VerdictKeeps(db: Db, target: Option<Label>, run: Option<Run>)
    requires Valid(db) && ApplyVerdict(db, target, run).Accept?
    ensures Valid(ApplyVerdict(db, target, run).db)
  {
    var name := target.value;
    VerdictRowKeeps(db.nodes[name], run.value);
    SameTextKeeps(db, db.nodes[name := VerdictRow(db.nodes[name], run.value)]);
  }

  lemma HintKeeps(db: Db, target: Option<Label>, hint: string, stamp: string)
    requires Valid(db) && ApplyHint(db, target, hint, stamp).Accept?
    ensures Valid(ApplyHint(db, target, hint, stamp).db)
  {
    assert RowValid(db.nodes[target.value]);
    SameTextKeeps(db, ApplyHint(db, target, hint, stamp).db.nodes);
  }

  lemma ApplyKeepsValid(db: Db, event: Event)
    requires Valid(db)
    ensures Valid(Apply(db, event).0)
  {
    if event.admissible && event.id !in db.applied && Decide(db, event).Accept? {
      match event.body
      case NodeAdded(draft) => AddedKeeps(db, event.target, draft);
      case NodeRevised(draft) => RevisedKeeps(db, event.target, draft);
      case HintAttached(hint, stamp) => HintKeeps(db, event.target, hint, stamp);
      case BatchCommitted(target, entries) => BatchKeeps(db, target, entries);
      case VerifierRun(run) => VerdictKeeps(db, event.target, run);
      assert Valid(Decide(db, event).db);
    }
  }

  /** Safety over whole runs: after any log the dependency graph is acyclic, every edge joins
      existing nodes and is cited by its source, and every row carries the hash of its own text. */
  lemma {:induction false} ReplayValid(events: seq<Event>)
    ensures Valid(Replay(events))
  {
    if events == [] {
      EmptyAcyclic(EMPTY_DB.edges);
    } else {
      ReplayValid(events[..|events| - 1]);
      ApplyKeepsValid(Replay(events[..|events| - 1]), events[|events| - 1]);
    }
  }
}
