/** The graph and the rows of a batch while it is checked and written one label at a time. */
module BatchGraphs {
  import opened Graphs
  import opened Hashing
  import opened Labels
  import opened MerkleCascade
  import opened Projection
  import opened Store

  function CitesOf(batch: Batch, placed: seq<Label>): Graph<Label> {
    set x, d | x in placed && x in batch && d in DraftRefs(batch[x]) :: (x, d)
  }

  /** The edge set checked so far: edges of labels outside the batch, and everything the
      placed labels cite, whether or not a node exists for it. */
  function GraphUpTo(edges: Graph<Label>, batch: Batch, placed: seq<Label>): Graph<Label> {
    (set e | e in edges && e.0 !in batch) + CitesOf(batch, placed)
  }

  lemma GraphUpToStep(edges: Graph<Label>, batch: Batch, placed: seq<Label>, x: Label)
    requires x in batch && x !in placed
    ensures GraphUpTo(edges, batch, placed + [x])
         == Rewire(GraphUpTo(edges, batch, placed), x, Elements(DraftRefs(batch[x])))
  {
    var g := GraphUpTo(edges, batch, placed + [x]);
    var h := Rewire(GraphUpTo(edges, batch, placed), x, Elements(DraftRefs(batch[x])));
    forall e: (Label, Label) ensures e in g <==> e in h {
    }
  }

  lemma GraphUpToGrows(edges: Graph<Label>, batch: Batch, placed: seq<Label>, order: seq<Label>)
    requires forall x :: x in placed ==> x in order
    ensures GraphUpTo(edges, batch, placed) <= GraphUpTo(edges, batch, order)
  {
  }

  /** Checked graph and written graph have the same cycles. */
  lemma WrittenCycles(edges: Graph<Label>, nodes: Nodes, batch: Batch, order: seq<Label>)
    requires EdgesInside(nodes, edges) && forall x :: x in batch <==> x in order
    ensures Acyclic(BatchEdges(edges, nodes.Keys + batch.Keys, batch)) <==> Acyclic(GraphUpTo(edges, batch, order))
  {
    SinkEdgesHarmless(BatchEdges(edges, nodes.Keys + batch.Keys, batch), GraphUpTo(edges, batch, order));
  }

  function WrittenEdges(edges: Graph<Label>, known: set<Label>, batch: Batch, placed: seq<Label>): Graph<Label> {
    (set e | e in edges && e.0 !in placed) + (set e | e in CitesOf(batch, placed) && e.1 in known)
  }

  lemma WrittenEdgesStep(edges: Graph<Label>, known: set<Label>, batch: Batch, placed: seq<Label>, x: Label)
    requires x in batch && x !in placed
    ensures WrittenEdges(edges, known, batch, placed + [x])
         == Rewire(WrittenEdges(edges, known, batch, placed), x, set d | d in DraftRefs(batch[x]) && d in known)
  {
    var a := WrittenEdges(edges, known, batch, placed + [x]);
    var b := Rewire(WrittenEdges(edges, known, batch, placed), x, set d | d in DraftRefs(batch[x]) && d in known);
    forall e: (Label, Label) ensures e in a <==> e in b {
      assert e in CitesOf(batch, placed + [x])
        <==> e in CitesOf(batch, placed) || (e.0 == x && e.1 in DraftRefs(batch[x]));
    }
  }

  lemma WrittenEdgesAll(edges: Graph<Label>, known: set<Label>, batch: Batch, order: seq<Label>)
    requires forall x :: x in batch <==> x in order
    ensures WrittenEdges(edges, known, batch, order) == BatchEdges(edges, known, batch)
  {
    var a, b := WrittenEdges(edges, known, batch, order), BatchEdges(edges, known, batch);
    forall e: (Label, Label) ensures e in a <==> e in b {
    }
  }

  function WrittenNodes(nodes: Nodes, target: Label, batch: Batch, hashes: map<Label, Hash>, placed: seq<Label>): Nodes
    requires KindsParse(batch) && hashes.Keys == batch.Keys && forall x :: x in placed ==> x in batch
  {
    map x | x in nodes.Keys + Elements(placed) ::
      if x in placed then BatchRow(nodes, target, batch, hashes, x) else nodes[x]
  }

  lemma WrittenNodesStep(nodes: Nodes, target: Label, batch: Batch, hashes: map<Label, Hash>, placed: seq<Label>,
                         x: Label)
    requires KindsParse(batch) && hashes.Keys == batch.Keys && (forall y :: y in placed ==> y in batch) && x in batch
    ensures WrittenNodes(nodes, target, batch, hashes, placed + [x])
         == WrittenNodes(nodes, target, batch, hashes, placed)[x := BatchRow(nodes, target, batch, hashes, x)]
  {
  }

  /** When x is written, every node it cites in the batch has been written already. */
  lemma ResolvedWhenWritten(nodes: Nodes, written: Nodes, batch: Batch, placed: seq<Label>, x: Label)
    requires x in batch && forall y :: y in placed ==> y in batch
    requires forall d :: (x, d) in BatchGraph(batch) ==> d in placed
    requires written.Keys == nodes.Keys + Elements(placed) + {x}
    ensures Resolved(written, DraftRefs(batch[x])) == set d | d in DraftRefs(batch[x]) && d in nodes.Keys + batch.Keys
  {
    forall d | d in DraftRefs(batch[x]) && d in batch ensures d in written {
      if d != x {
        assert (x, d) in BatchGraph(batch);
      }
    }
  }

  ghost predicate WrittenTo(db: Db, now: Db, target: Label, batch: Batch, hashes: map<Label, Hash>, placed: seq<Label>)
    requires KindsParse(batch) && hashes.Keys == batch.Keys
  {
    && (forall y :: y in placed ==> y in batch)
    && now.nodes == WrittenNodes(db.nodes, target, batch, hashes, placed)
    && now.edges == WrittenEdges(db.edges, db.nodes.Keys + batch.Keys, batch, placed)
    && now.applied == db.applied
  }

  lemma NotYetWritten(db: Db, now: Db, target: Label, batch: Batch, hashes: map<Label, Hash>, placed: seq<Label>,
                      x: Label)
    requires KindsParse(batch) && hashes.Keys == batch.Keys
    requires WrittenTo(db, now, target, batch, hashes, placed) && x !in placed
    ensures x in now.nodes <==> x in db.nodes
  {
  }

  lemma WrittenStep(db: Db, now: Db, target: Label, batch: Batch, hashes: map<Label, Hash>, placed: seq<Label>,
                    x: Label)
    requires KindsParse(batch) && hashes.Keys == batch.Keys
    requires WrittenTo(db, now, target, batch, hashes, placed)
    requires x in batch && x !in placed && forall d :: (x, d) in BatchGraph(batch) ==> d in placed
    ensures WrittenTo(db, PutNode(now, x, BatchRow(db.nodes, target, batch, hashes, x)), target, batch, hashes,
                      placed + [x])
  {
    var row := BatchRow(db.nodes, target, batch, hashes, x);
    RowCites(db.nodes, target, batch, hashes, x);
    WrittenNodesStep(db.nodes, target, batch, hashes, placed, x);
    WrittenEdgesStep(db.edges, db.nodes.Keys + batch.Keys, batch, placed, x);
    ResolvedWhenWritten(db.nodes, now.nodes[x := row], batch, placed, x);
  }

  lemma RowCites(nodes: Nodes, target: Label, batch: Batch, hashes: map<Label, Hash>, x: Label)
    requires KindsParse(batch) && hashes.Keys == batch.Keys && x in batch
    ensures Refs(BatchRow(nodes, target, batch, hashes, x)) == DraftRefs(batch[x])
  {
  }

  lemma WrittenAll(db: Db, now: Db, target: Label, batch: Batch, hashes: map<Label, Hash>, order: seq<Label>)
    requires KindsParse(batch) && hashes.Keys == batch.Keys && forall x :: x in batch <==> x in order
    requires WrittenTo(db, now, target, batch, hashes, order)
    ensures now == BatchDb(db, target, batch, hashes)
  {
    WrittenEdgesAll(db.edges, db.nodes.Keys + batch.Keys, batch, order);
    assert now.nodes == BatchNodes(db.nodes, target, batch, hashes);
  }
}
