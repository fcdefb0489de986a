/** Which nodes an event can touch: the labels it names and whatever depends on them. */
module Footprint {
  import opened Coherence
  import opened Graphs
  import opened Hashing
  import opened Invariants
  import opened Labels
  import opened MerkleCascade
  import opened Projection
  import opened Search
  import opened Store

  /** The labels _render_for_event starts from: the event's target and its batch labels. */
  function Named(event: Event): set<Label> {
    (if event.target.Some? then {event.target.value} else {}) +
    (if event.body.BatchCommitted? then EntryNames(event.body.entries) else {})
  }

  function EntryNames(entries: seq<BatchEntry>): set<Label> {
    set i | 0 <= i < |entries| && entries[i].name.Some? :: entries[i].name.value
  }

  /** x has the same row (or none) and the same outgoing edges in both stores. */
  ghost predicate Untouched(db: Db, db': Db, x: Label) {
    && (x in db.nodes <==> x in db'.nodes)
    && (x in db.nodes && x in db'.nodes ==> db'.nodes[x] == db.nodes[x])
    && DepsOf(db'.edges, x) == DepsOf(db.edges, x)
  }

  lemma UntouchedTrans(a: Db, b: Db, c: Db, x: Label)
    requires Untouched(a, b, x) && Untouched(b, c, x)
    ensures Untouched(a, c, x)
  {
  }

  lemma PutNodeUntouched(db: Db, name: Label, row: Row, x: Label)
    requires x != name
    ensures Untouched(db, PutNode(db, name, row), x)
  {
    forall d ensures d in DepsOf(PutNode(db, name, row).edges, x) <==> d in DepsOf(db.edges, x) {
      assert d in DepsOf(db.edges, x) <==> (x, d) in db.edges;
      assert d in DepsOf(PutNode(db, name, row).edges, x) <==> (x, d) in PutNode(db, name, row).edges;
    }
  }

  lemma CascadeSkips(nodes: Nodes, edges: Graph<Label>, name: Label, x: Label)
    requires RowsHashed(nodes) && !Reaches(edges, x, name)
    ensures var after := CascadeFrom(nodes, edges, name).nodes;
            after.Keys == nodes.Keys && (x in nodes ==> after[x] == nodes[x])
  {
    CascadeShape(nodes, edges, SortedLabels(DependentsOf(edges, name)), {});
    CascadeFromPops(nodes, edges, name);
    if DependsOn(edges, x, name) {
      DependsOnIsReaching(edges, x, name);
    }
  }

  lemma CascadeUntouched(db: Db, name: Label, prior: Row, x: Label)
    requires Valid(db) && name in db.nodes && !Reaches(db.edges, x, name)
    ensures Untouched(db, WithCascade(db, name, prior), x)
  {
    ValidRowsHashed(db);
    CascadeSkips(db.nodes, db.edges, name, x);
    WithCascadeEdges(db, name, prior);
  }

  lemma WithCascadeEdges(db: Db, name: Label, prior: Row)
    requires name in db.nodes
    ensures WithCascade(db, name, prior).edges == db.edges
  {
  }

  lemma RevisedUntouched(db: Db, target: Option<Label>, draft: Option<Draft>, x: Label)
    requires Valid(db) && ApplyRevised(db, target, draft).Accept?
    requires !Reaches(ApplyRevised(db, target, draft).db.edges, x, target.value)
    ensures Untouched(db, ApplyRevised(db, target, draft).db, x)
  {
    var name, kind := target.value, ParseKind(draft.value.kind).value;
    var mid := RevisedDb(db, name, kind, draft.value);
    RevisedDbValid(db, name, kind, draft.value);
    WithCascadeEdges(mid, name, db.nodes[name]);
    ReachesRefl(mid.edges, name);
    PutNodeUntouched(db, name, mid.nodes[name], x);
    CascadeUntouched(mid, name, db.nodes[name], x);
    UntouchedTrans(db, mid, WithCascade(mid, name, db.nodes[name]), x);
  }

  lemma MidUntouched(db: Db, target: Label, batch: Batch, x: Label)
    requires BatchReady(db, target, batch) && x !in batch
    ensures Untouched(db, BatchMid(db, target, batch), x)
  {
    var mid := BatchMid(db, target, batch);
    forall d ensures d in DepsOf(mid.edges, x) <==> d in DepsOf(db.edges, x) {
      assert d in DepsOf(db.edges, x) <==> (x, d) in db.edges;
      assert d in DepsOf(mid.edges, x) <==> (x, d) in mid.edges;
    }
  }

  lemma BatchNamesAreEntries(target: Label, entries: seq<BatchEntry>)
    requires BatchFits(target, entries)
    ensures forall x :: x in BatchOf(entries) ==> x in EntryNames(entries)
  {
  }

  lemma BatchUntouched(db: Db, target: Label, entries: seq<BatchEntry>, x: Label)
    requires Valid(db) && ApplyBatch(db, target, entries).Accept?
    requires !InCone(ApplyBatch(db, target, entries).db.edges, EntryNames(entries), x)
    ensures Untouched(db, ApplyBatch(db, target, entries).db, x)
  {
    var batch := BatchOf(entries);
    AcceptedBatch(db, target, entries);
    BatchNamesAreEntries(target, entries);
    var mid := BatchMid(db, target, batch);
    assert target in batch;
    ReachesRefl(mid.edges, x);
    if target in db.nodes {
      WithCascadeEdges(mid, target, db.nodes[target]);
      MidUntouched(db, target, batch, x);
      CascadeUntouched(mid, target, db.nodes[target], x);
      UntouchedTrans(db, mid, WithCascade(mid, target, db.nodes[target]), x);
    } else {
      MidUntouched(db, target, batch, x);
    }
  }

  /** Outside the cone of the labels it names, an applied event leaves every node as it was. */
  lemma FootprintOf(db: Db, event: Event, x: Label)
    requires Valid(db) && Apply(db, event).1 == Applied
    requires !InCone(Apply(db, event).0.edges, Named(event), x)
    ensures Untouched(db, Apply(db, event).0, x)
  {
    if event.id !in db.applied {
      DecisionFootprint(db, event, x);
    }
  }

  lemma DecisionFootprint(db: Db, event: Event, x: Label)
    requires Valid(db) && Decide(db, event).Accept?
    requires !InCone(Decide(db, event).db.edges, Named(event), x)
    ensures Untouched(db, Decide(db, event).db, x)
  {
    ReachesRefl(Decide(db, event).db.edges, x);
    match event.body
    case NodeAdded(draft) =>
      assert event.target.value in Named(event);
      PutNodeUntouched(db, event.target.value,
                       Assembled(db.nodes, event.target.value, ParseKind(draft.value.kind).value, draft.value), x);
    case NodeRevised(draft) =>
      assert event.target.value in Named(event);
      RevisedUntouched(db, event.target, draft, x);
    case HintAttached(hint, stamp) => assert event.target.value in Named(event);
    case BatchCommitted(target, entries) =>
      assert EntryNames(entries) <= Named(event);
      BatchUntouched(db, target, entries, x);
    case VerifierRun(run) => assert event.target.value in Named(event);
  }

  lemma WithCascadeKeys(db: Db, name: Label, prior: Row)
    requires Valid(db) && name in db.nodes
    ensures WithCascade(db, name, prior).nodes.Keys == db.nodes.Keys
  {
    ValidRowsHashed(db);
    CascadeShape(db.nodes, db.edges, SortedLabels(DependentsOf(db.edges, name)), {});
  }

  /** No event removes a node. */
  lemma NodesKept(db: Db, event: Event)
    requires Valid(db)
    ensures db.nodes.Keys <= Apply(db, event).0.nodes.Keys
  {
    if event.admissible && event.id !in db.applied && Decide(db, event).Accept? {
      DecisionKeepsNodes(db, event);
    }
  }

  lemma DecisionKeepsNodes(db: Db, event: Event)
    requires Valid(db) && Decide(db, event).Accept?
    ensures db.nodes.Keys <= Decide(db, event).db.nodes.Keys
  {
    match event.body
    case NodeAdded(draft) =>
    case NodeRevised(draft) => RevisedKeepsNodes(db, event.target, draft);
    case HintAttached(hint, stamp) =>
    case BatchCommitted(target, entries) => BatchKeepsNodes(db, target, entries);
    case VerifierRun(run) =>
  }

  lemma RevisedKeepsNodes(db: Db, target: Option<Label>, draft: Option<Draft>)
    requires Valid(db) && ApplyRevised(db, target, draft).Accept?
    ensures db.nodes.Keys <= ApplyRevised(db, target, draft).db.nodes.Keys
  {
    var name, kind := target.value, ParseKind(draft.value.kind).value;
    RevisedDbValid(db, name, kind, draft.value);
    WithCascadeKeys(RevisedDb(db, name, kind, draft.value), name, db.nodes[name]);
  }

  lemma BatchKeepsNodes(db: Db, target: Label, entries: seq<BatchEntry>)
    requires Valid(db) && ApplyBatch(db, target, entries).Accept?
    ensures db.nodes.Keys <= ApplyBatch(db, target, entries).db.nodes.Keys
  {
    AcceptedBatch(db, target, entries);
    if target in db.nodes {
      WithCascadeKeys(BatchMid(db, target, BatchOf(entries)), target, db.nodes[target]);
    }
  }
}
