/** Where the contents of a node come from: its texts from the last applied event that wrote it, its
    edges from the references of that event, and its statement hash from its own label and texts. */
module RowHistory {
  import opened Coherence
  import opened Footprint
  import opened Graphs
  import opened Hashing
  import opened History
  import opened Invariants
  import opened Labels
  import opened MerkleCascade
  import opened Projection
  import opened Search
  import opened Store
  import opened Texts

  /** The text an event file gives x, if it gives any. */
  function DraftFor(event: Event, x: Label): Option<Draft> {
    match event.body
    case NodeAdded(draft) => if event.target == Some(x) then draft else None
    case NodeRevised(draft) => if event.target == Some(x) then draft else None
    case BatchCommitted(_, entries) => EntryDraft(entries, x)
    case _ => None
  }

  function EntryDraft(entries: seq<BatchEntry>, x: Label): Option<Draft> {
    if entries == [] then None
    else if entries[0].name == Some(x) then entries[0].draft
    else EntryDraft(entries[1..], x)
  }

  function KindName(kind: Kind): string {
    match kind
    case Definition => "definition"
    case ExternalTheorem => "external_theorem"
    case Lemma => "lemma"
    case Theorem => "theorem"
    case Proposition => "proposition"
  }

  lemma KindNames(raw: string)
    requires ParseKind(raw).Some?
    ensures KindName(ParseKind(raw).value) == raw
  {
  }

  ghost predicate Shows(row: Row, draft: Draft) {
    && KindName(row.kind) == draft.kind && row.statement == draft.statement && row.proof == draft.proof
    && row.remark == draft.remark && row.sourceNote == draft.sourceNote
  }

  // ---- texts ----

  lemma {:induction false} EntryFound(entries: seq<BatchEntry>, x: Label)
    requires EntriesFit(entries)
    ensures forall i :: 0 <= i < |entries| && entries[i].name == Some(x) ==> EntryDraft(entries, x) == entries[i].draft
    ensures (forall i :: 0 <= i < |entries| ==> entries[i].name != Some(x)) ==> EntryDraft(entries, x) == None
  {
    if entries != [] {
      assert entries == [entries[0]] + entries[1..];
      EntryFound(entries[1..], x);
    }
  }

  lemma EntryLookup(entries: seq<BatchEntry>, x: Label)
    requires EntriesFit(entries)
    ensures EntryDraft(entries, x).Some? <==> x in BatchOf(entries)
    ensures x in BatchOf(entries) ==> EntryDraft(entries, x) == Some(BatchOf(entries)[x])
  {
    EntryFound(entries, x);
    if x in BatchOf(entries) {
      var i :| 0 <= i < |entries| && EntryFits(entries[i]) && entries[i].name.value == x;
      assert entries[i].name == Some(x);
    }
    if i :| 0 <= i < |entries| && entries[i].name == Some(x) {
      assert EntryFits(entries[i]);
    }
  }

  /** What an accepted event leaves as the text of x. */
  ghost predicate TextStep(db: Db, event: Event, x: Label) {
    Decide(db, event).Accept? && x in Decide(db, event).db.nodes ==>
      var row := Decide(db, event).db.nodes[x];
      match DraftFor(event, x)
      case Some(draft) => Shows(row, draft)
      case None => x in db.nodes && SameText(db.nodes[x], row)
  }

  lemma AddedText(db: Db, event: Event, x: Label)
    requires event.body.NodeAdded?
    ensures TextStep(db, event, x)
  {
    if Decide(db, event).Accept? {
      KindNames(event.body.draft.value.kind);
    }
  }

  lemma RevisedText(db: Db, event: Event, x: Label)
    requires Valid(db) && event.body.NodeRevised?
    ensures TextStep(db, event, x)
  {
    if Decide(db, event).Accept? && x in Decide(db, event).db.nodes {
      var draft := event.body.draft.value;
      KindNames(draft.kind);
      RewrittenText(db, event.target, draft, x);
    }
  }

  lemma RewrittenText(db: Db, target: Option<Label>, draft: Draft, x: Label)
    requires Valid(db) && ApplyRevised(db, target, Some(draft)).Accept?
    requires KindName(ParseKind(draft.kind).value) == draft.kind
    requires x in ApplyRevised(db, target, Some(draft)).db.nodes
    ensures var row := ApplyRevised(db, target, Some(draft)).db.nodes[x];
            if target == Some(x) then Shows(row, draft) else x in db.nodes && SameText(db.nodes[x], row)
  {
    var name, kind := target.value, ParseKind(draft.kind).value;
    RevisedDbValid(db, name, kind, draft);
    WithCascadeKeys(RevisedDb(db, name, kind, draft), name, db.nodes[name]);
    CascadeRow(RevisedDb(db, name, kind, draft), name, db.nodes[name], x);
  }

  lemma CommittedText(db: Db, event: Event, x: Label)
    requires Valid(db) && event.body.BatchCommitted?
    ensures TextStep(db, event, x)
  {
    if Decide(db, event).Accept? && x in Decide(db, event).db.nodes {
      var target, entries := event.body.batchTarget, event.body.entries;
      var batch := BatchOf(entries);
      AcceptedBatch(db, target, entries);
      EntryLookup(entries, x);
      var mid := BatchMid(db, target, batch);
      if target in db.nodes {
        WithCascadeKeys(mid, target, db.nodes[target]);
        CascadeRow(mid, target, db.nodes[target], x);
      }
      MidText(db, target, batch, x);
    }
  }

  lemma MidText(db: Db, target: Label, batch: Batch, x: Label)
    requires BatchReady(db, target, batch) && x in BatchMid(db, target, batch).nodes
    ensures var row := BatchMid(db, target, batch).nodes[x];
            if x in batch then Shows(row, batch[x]) else x in db.nodes && row == db.nodes[x]
  {
    if x in batch {
      KindNames(batch[x].kind);
    }
  }

  lemma HintText(db: Db, event: Event, x: Label)
    requires event.body.HintAttached?
    ensures TextStep(db, event, x)
  {
  }

  lemma VerdictText(db: Db, event: Event, x: Label)
    requires event.body.VerifierRun?
    ensures TextStep(db, event, x)
  {
  }

  lemma EventText(db: Db, event: Event, x: Label)
    requires Valid(db)
    ensures TextStep(db, event, x)
  {
    match event.body
    case NodeAdded(draft) => AddedText(db, event, x);
    case NodeRevised(draft) => RevisedText(db, event, x);
    case HintAttached(hint, stamp) => HintText(db, event, x);
    case BatchCommitted(target, entries) => CommittedText(db, event, x);
    case VerifierRun(run) => VerdictText(db, event, x);
  }

  // ---- over the log ----

  ghost predicate WroteAt(log: seq<Event>, j: nat, x: Label) {
    AcceptedAt(log, j) && DraftFor(log[j], x).Some?
  }

  /** One past the last position below n where x was written; 0 if there is none. */
  ghost function SinceWrite(log: seq<Event>, x: Label, n: nat): (since: nat)
    requires n <= |log|
    ensures since <= n
    ensures since > 0 ==> WroteAt(log, since - 1, x)
  {
    if n == 0 then 0 else if WroteAt(log, n - 1, x) then n else SinceWrite(log, x, n - 1)
  }

  ghost predicate Shown(log: seq<Event>, x: Label, n: nat)
    requires n <= |log|
  {
    x in At(log, n).nodes ==>
      var j := SinceWrite(log, x, n);
      j > 0 && Shows(At(log, n).nodes[x], DraftFor(log[j - 1], x).value)
  }

  lemma TextKept(before: Row, row: Row, draft: Draft)
    requires Shows(before, draft) && SameText(before, row)
    ensures Shows(row, draft)
  {
  }

  lemma ShownStep(log: seq<Event>, x: Label, j: nat)
    requires j < |log| && Shown(log, x, j)
    ensures Shown(log, x, j + 1)
  {
    var db, event := At(log, j), log[j];
    AtStep(log, j);
    if x in At(log, j + 1).nodes {
      EventText(db, event, x);
      if AcceptedAt(log, j) {
        if !WroteAt(log, j, x) {
          TextKept(db.nodes[x], At(log, j + 1).nodes[x], DraftFor(log[SinceWrite(log, x, j) - 1], x).value);
        }
      } else {
        assert At(log, j + 1).nodes == db.nodes;
      }
    }
  }

  /** Every node shows the kind and the texts of the last applied event that wrote it. */
  lemma {:induction false} TextHistory(log: seq<Event>, x: Label, n: nat)
    requires n <= |log|
    ensures Shown(log, x, n)
  {
    if n > 0 {
      TextHistory(log, x, n - 1);
      ShownStep(log, x, n - 1);
    } else {
      assert At(log, 0) == EMPTY_DB;
    }
  }

  // ---- edges ----

  /** What an accepted event leaves as the edges of x. */
  ghost predicate EdgeStep(db: Db, event: Event, x: Label, d: Label) {
    Decide(db, event).Accept? ==>
      var db' := Decide(db, event).db;
      match DraftFor(event, x)
      case Some(draft) => (x, d) in db'.edges <==> d in RefsOf(draft.statement, draft.proof) && d in db'.nodes
      case None => (x, d) in db'.edges <==> (x, d) in db.edges
  }

  lemma PutEdges(db: Db, name: Label, row: Row, x: Label, d: Label)
    ensures var db' := PutNode(db, name, row);
            (x, d) in db'.edges <==>
                      if x == name then d in RefsOf(row.statement, row.proof) && d in db'.nodes
                      else (x, d) in db.edges
  {
  }

  lemma AddedEdges(db: Db, event: Event, x: Label, d: Label)
    requires event.body.NodeAdded?
    ensures EdgeStep(db, event, x, d)
  {
    if Decide(db, event).Accept? {
      var name, draft := event.target.value, event.body.draft.value;
      PutEdges(db, name, Assembled(db.nodes, name, ParseKind(draft.kind).value, draft), x, d);
    }
  }

  lemma RevisedEdges(db: Db, event: Event, x: Label, d: Label)
    requires Valid(db) && event.body.NodeRevised?
    ensures EdgeStep(db, event, x, d)
  {
    if Decide(db, event).Accept? {
      var name, draft := event.target.value, event.body.draft.value;
      RewrittenEdges(db, name, ParseKind(draft.kind).value, draft, x, d);
    }
  }

  lemma RewrittenEdges(db: Db, name: Label, kind: Kind, draft: Draft, x: Label, d: Label)
    requires Valid(db) && name in db.nodes && LabelFits(name, kind) && Acyclic(RevisedDb(db, name, kind, draft).edges)
    ensures var mid := RevisedDb(db, name, kind, draft);
            var db' := WithCascade(mid, name, db.nodes[name]);
            && db'.nodes.Keys == db.nodes.Keys
            && ((x, d) in db'.edges <==>
                if x == name then d in RefsOf(draft.statement, draft.proof) && d in db.nodes
                else (x, d) in db.edges)
  {
    var mid := RevisedDb(db, name, kind, draft);
    RevisedDbValid(db, name, kind, draft);
    WithCascadeKeys(mid, name, db.nodes[name]);
    PutEdges(db, name, mid.nodes[name], x, d);
  }

  lemma CommittedEdges(db: Db, event: Event, x: Label, d: Label)
    requires Valid(db) && event.body.BatchCommitted?
    ensures EdgeStep(db, event, x, d)
  {
    if Decide(db, event).Accept? {
      var target, entries := event.body.batchTarget, event.body.entries;
      EntryLookup(entries, x);
      BatchLeavesEdges(db, target, entries, x, d);
    }
  }

  lemma BatchLeavesEdges(db: Db, target: Label, entries: seq<BatchEntry>, x: Label, d: Label)
    requires Valid(db) && ApplyBatch(db, target, entries).Accept?
    ensures var db', batch := ApplyBatch(db, target, entries).db, BatchOf(entries);
            (x, d) in db'.edges <==>
                      if x in batch then d in RefsOf(batch[x].statement, batch[x].proof) && d in db'.nodes
                      else (x, d) in db.edges
  {
    AcceptedBatch(db, target, entries);
    var mid := BatchMid(db, target, BatchOf(entries));
    if target in db.nodes {
      WithCascadeKeys(mid, target, db.nodes[target]);
    }
    MidEdges(db, target, BatchOf(entries), x, d);
  }

  lemma MidEdges(db: Db, target: Label, batch: Batch, x: Label, d: Label)
    requires BatchReady(db, target, batch)
    ensures var mid := BatchMid(db, target, batch);
            (x, d) in mid.edges <==>
                      if x in batch then d in RefsOf(batch[x].statement, batch[x].proof) && d in mid.nodes
                      else (x, d) in db.edges
  {
  }

  lemma QuietEdges(db: Db, event: Event, x: Label, d: Label)
    requires event.body.HintAttached? || event.body.VerifierRun?
    ensures EdgeStep(db, event, x, d)
  {
  }

  lemma EventEdges(db: Db, event: Event, x: Label, d: Label)
    requires Valid(db)
    ensures EdgeStep(db, event, x, d)
  {
    match event.body
    case NodeAdded(draft) => AddedEdges(db, event, x, d);
    case NodeRevised(draft) => RevisedEdges(db, event, x, d);
    case HintAttached(hint, stamp) => QuietEdges(db, event, x, d);
    case BatchCommitted(target, entries) => CommittedEdges(db, event, x, d);
    case VerifierRun(run) => QuietEdges(db, event, x, d);
  }

  /** The event gives x a text that cites d. */
  predicate CitesIn(event: Event, x: Label, d: Label) {
    && DraftFor(event, x).Some?
    && d in RefsOf(DraftFor(event, x).value.statement, DraftFor(event, x).value.proof)
  }

  ghost predicate EdgeKnown(log: seq<Event>, x: Label, d: Label, n: nat, since: nat)
    requires since <= n <= |log|
  {
    (x, d) in At(log, n).edges <==> since > 0 && CitesIn(log[since - 1], x, d) && d in At(log, since).nodes
  }

  lemma WrittenEdge(log: seq<Event>, x: Label, d: Label, j: nat)
    requires WroteAt(log, j, x)
    ensures EdgeKnown(log, x, d, j + 1, j + 1)
  {
    AtStep(log, j);
    EventEdges(At(log, j), log[j], x, d);
  }

  lemma KeptEdge(log: seq<Event>, x: Label, d: Label, j: nat)
    requires j < |log| && !WroteAt(log, j, x)
    ensures (x, d) in At(log, j + 1).edges <==> (x, d) in At(log, j).edges
  {
    AtStep(log, j);
    if AcceptedAt(log, j) {
      EventEdges(At(log, j), log[j], x, d);
    }
  }

  lemma KeptKnown(log: seq<Event>, x: Label, d: Label, j: nat, since: nat)
    requires since <= j < |log| && !WroteAt(log, j, x) && EdgeKnown(log, x, d, j, since)
    ensures EdgeKnown(log, x, d, j + 1, since)
  {
    KeptEdge(log, x, d, j);
  }

  lemma NoEdgeYet(log: seq<Event>, x: Label, d: Label)
    ensures EdgeTold(log, x, d, 0)
  {
    assert At(log, 0) == EMPTY_DB;
  }

  ghost predicate EdgeTold(log: seq<Event>, x: Label, d: Label, n: nat) {
    n <= |log| && EdgeKnown(log, x, d, n, SinceWrite(log, x, n))
  }

  /** A node has an edge to d exactly when the last applied event that wrote it cites d and d was
      there once that event was applied. */
  lemma {:induction false} EdgeHistory(log: seq<Event>, x: Label, d: Label, n: nat)
    requires n <= |log|
    ensures EdgeTold(log, x, d, n)
  {
    if n == 0 {
      NoEdgeYet(log, x, d);
    } else {
      EdgeHistory(log, x, d, n - 1);
      ToldNext(log, x, d, n);
    }
  }

  lemma ToldNext(log: seq<Event>, x: Label, d: Label, n: nat)
    requires 0 < n <= |log| && EdgeTold(log, x, d, n - 1)
    ensures EdgeTold(log, x, d, n)
  {
    var j := n - 1;
    EdgeStepOn(log, x, d, j);
    assert j + 1 == n;
  }

  lemma EdgeStepOn(log: seq<Event>, x: Label, d: Label, j: nat)
    requires j < |log| && EdgeKnown(log, x, d, j, SinceWrite(log, x, j))
    ensures EdgeKnown(log, x, d, j + 1, SinceWrite(log, x, j + 1))
  {
    EdgeNext(log, x, d, j, SinceWrite(log, x, j), SinceWrite(log, x, j + 1));
  }

  lemma EdgeNext(log: seq<Event>, x: Label, d: Label, j: nat, since: nat, next: nat)
    requires since <= j < |log| && EdgeKnown(log, x, d, j, since)
    requires next == if WroteAt(log, j, x) then j + 1 else since
    ensures EdgeKnown(log, x, d, j + 1, next)
  {
    if next == j + 1 {
      WrittenEdge(log, x, d, j);
    } else {
      KeptKnown(log, x, d, j, since);
    }
  }

  // ---- the statement hash ----

  /** h is a statement hash of x itself, over its current kind and statement. */
  ghost predicate OwnHash(x: Label, row: Row) {
    && row.statementHash.StatementHash? && row.statementHash.name == x && row.statementHash.kind == row.kind
    && row.statementHash.statement == row.statement
  }

  /** What h carries for d is empty or a hash of d. */
  ghost predicate NamedDep(h: Hash, d: Label) {
    h.StatementHash? && d in h.deps && h.deps[d] != NoHash ==> h.deps[d].StatementHash? && h.deps[d].name == d
  }

  ghost predicate Committed(nodes: Nodes) {
    forall x :: x in nodes ==> OwnHash(x, nodes[x])
  }

  ghost predicate DepsNamed(nodes: Nodes) {
    forall x, d :: x in nodes ==> NamedDep(nodes[x].statementHash, d)
  }

  lemma AssembledCommitted(nodes: Nodes, name: Label, kind: Kind, draft: Draft)
    requires Committed(nodes)
    ensures var row := Assembled(nodes, name, kind, draft);
            OwnHash(name, row) && forall d :: NamedDep(row.statementHash, d)
  {
  }

  lemma {:induction false} CascadeCommitted(nodes: Nodes, edges: Graph<Label>, frontier: seq<Label>, seen: set<Label>)
    requires Committed(nodes) && DepsNamed(nodes)
    ensures Committed(Cascade(nodes, edges, frontier, seen).nodes)
    ensures DepsNamed(Cascade(nodes, edges, frontier, seen).nodes)
    decreases nodes.Keys - seen, |frontier|
  {
    if frontier != [] {
      var name, rest := frontier[0], frontier[1..];
      if name in seen {
        CascadeCommitted(nodes, edges, rest, seen);
      } else if name !in nodes {
        assert nodes.Keys - (seen + {name}) == nodes.Keys - seen;
        CascadeCommitted(nodes, edges, rest, seen + {name});
      } else {
        var row := Rehashed(nodes, edges, name);
        assert name in nodes.Keys - seen;
        if row == nodes[name] {
          CascadeCommitted(nodes, edges, rest, seen + {name});
        } else {
          assert nodes[name := row].Keys == nodes.Keys;
          RehashedCommitted(nodes, edges, name);
          CascadeCommitted(nodes[name := row], edges, rest + SortedLabels(DependentsOf(edges, name)), seen + {name});
        }
      }
    }
  }

  lemma RehashedCommitted(nodes: Nodes, edges: Graph<Label>, name: Label)
    requires Committed(nodes) && DepsNamed(nodes) && name in nodes
    ensures var after := nodes[name := Rehashed(nodes, edges, name)]; Committed(after) && DepsNamed(after)
  {
    assert forall d :: NamedDep(Rehashed(nodes, edges, name).statementHash, d);
  }

  lemma PutCommitted(db: Db, name: Label, row: Row)
    requires Committed(db.nodes) && DepsNamed(db.nodes) && OwnHash(name, row)
    requires forall d :: NamedDep(row.statementHash, d)
    ensures Committed(PutNode(db, name, row).nodes) && DepsNamed(PutNode(db, name, row).nodes)
  {
  }

  ghost predicate HashesOwn(db: Db) {
    Committed(db.nodes) && DepsNamed(db.nodes)
  }

  lemma WithCascadeCommitted(db: Db, name: Label, prior: Row)
    requires HashesOwn(db) && name in db.nodes
    ensures HashesOwn(WithCascade(db, name, prior))
  {
    CascadeCommitted(db.nodes, db.edges, SortedLabels(DependentsOf(db.edges, name)), {});
  }

  lemma MidCommitted(db: Db, target: Label, batch: Batch)
    requires HashesOwn(db) && BatchReady(db, target, batch)
    ensures HashesOwn(BatchMid(db, target, batch))
  {
    var mid := BatchMid(db, target, batch);
    forall x | x in batch ensures OwnHash(x, mid.nodes[x]) && forall d :: NamedDep(mid.nodes[x].statementHash, d) {
      MemberCommitted(db, target, batch, x);
    }
    forall x, d | x in mid.nodes ensures NamedDep(mid.nodes[x].statementHash, d) {
    }
  }

  lemma MemberCommitted(db: Db, target: Label, batch: Batch, x: Label)
    requires HashesOwn(db) && BatchReady(db, target, batch) && x in batch
    ensures var row := BatchMid(db, target, batch).nodes[x];
            OwnHash(x, row) && forall d :: NamedDep(row.statementHash, d)
  {
    var hashes := Staging(db.nodes, batch);
    assert StagedAt(db.nodes, batch, hashes, x);
    MemberHash(db, target, batch, x);
    forall d ensures NamedDep(BatchMid(db, target, batch).nodes[x].statementHash, d) {
      if d in batch {
        assert StagedAt(db.nodes, batch, hashes, d);
      }
    }
  }

  lemma DecideCommitted(db: Db, event: Event)
    requires Valid(db) && HashesOwn(db) && Decide(db, event).Accept?
    ensures HashesOwn(Decide(db, event).db)
  {
    match event.body
    case NodeAdded(draft) => AddedCommitted(db, event.target, draft);
    case NodeRevised(draft) => RevisedCommitted(db, event.target, draft);
    case HintAttached(hint, stamp) => HintCommitted(db, event.target, hint, stamp);
    case BatchCommitted(target, entries) => BatchHashesOwn(db, target, entries);
    case VerifierRun(run) => VerdictCommitted(db, event.target, run);
  }

  lemma AddedCommitted(db: Db, target: Option<Label>, draft: Option<Draft>)
    requires HashesOwn(db) && ApplyAdded(db, target, draft).Accept?
    ensures HashesOwn(ApplyAdded(db, target, draft).db)
  {
    var kind := ParseKind(draft.value.kind).value;
    AssembledCommitted(db.nodes, target.value, kind, draft.value);
    PutCommitted(db, target.value, Assembled(db.nodes, target.value, kind, draft.value));
  }

  lemma RevisedCommitted(db: Db, target: Option<Label>, draft: Option<Draft>)
    requires Valid(db) && HashesOwn(db) && ApplyRevised(db, target, draft).Accept?
    ensures HashesOwn(ApplyRevised(db, target, draft).db)
  {
    var name, kind := target.value, ParseKind(draft.value.kind).value;
    AssembledCommitted(db.nodes, name, kind, draft.value);
    PutCommitted(db, name, Revised(db.nodes[name], Assembled(db.nodes, name, kind, draft.value)));
    WithCascadeCommitted(RevisedDb(db, name, kind, draft.value), name, db.nodes[name]);
  }

  lemma HintCommitted(db: Db, target: Option<Label>, hint: string, stamp: string)
    requires HashesOwn(db) && ApplyHint(db, target, hint, stamp).Accept?
    ensures HashesOwn(ApplyHint(db, target, hint, stamp).db)
  {
  }

  lemma BatchHashesOwn(db: Db, target: Label, entries: seq<BatchEntry>)
    requires Valid(db) && HashesOwn(db) && ApplyBatch(db, target, entries).Accept?
    ensures HashesOwn(ApplyBatch(db, target, entries).db)
  {
    AcceptedBatch(db, target, entries);
    MidCommitted(db, target, BatchOf(entries));
    if target in db.nodes {
      WithCascadeCommitted(BatchMid(db, target, BatchOf(entries)), target, db.nodes[target]);
    }
  }

  lemma VerdictCommitted(db: Db, target: Option<Label>, run: Option<Run>)
    requires HashesOwn(db) && ApplyVerdict(db, target, run).Accept?
    ensures HashesOwn(ApplyVerdict(db, target, run).db)
  {
  }

  /** After any log every statement hash is one of the node's own label, kind and statement, and
      carries under each label only a hash of that label. */
  lemma {:induction false} ReplayCommitted(log: seq<Event>)
    ensures HashesOwn(Replay(log))
  {
    if log != [] {
      var front, event := log[..|log| - 1], log[|log| - 1];
      ReplayValid(front);
      ReplayCommitted(front);
      if event.admissible && event.id !in Replay(front).applied && Decide(Replay(front), event).Accept? {
        DecideCommitted(Replay(front), event);
      }
    }
  }
}
