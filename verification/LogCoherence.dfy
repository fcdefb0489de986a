/** Coherence over whole logs: exactly when every state a log passes through has only current
    hashes, event by event. */
module LogCoherence {
  import opened Coherence
  import opened CurrentEdges
  import opened Graphs
  import opened Hashing
  import opened History
  import opened Invariants
  import opened Labels
  import opened MerkleCascade
  import opened Projection
  import opened Search
  import opened Store

  ghost predicate Decides(db: Db, event: Event) {
    event.admissible && event.id !in db.applied && Decide(db, event).Accept?
  }

  /** The condition under which the event keeps the hash behind every edge current. */
  ghost predicate FitsTurns(db: Db, event: Event) {
    Decides(db, event) ==>
      match event.body
      case NodeRevised(draft) => TurnsFitRevision(db, event.target.value, draft.value)
      case BatchCommitted(target, entries) => BatchReady(db, target, BatchOf(entries))
                                              && TurnsFitBatch(db, target, BatchOf(entries))
      case _ => true
  }

  /** The batch members that no turn of the cascade will hash again. */
  ghost function HashedOnce(db: Db, target: Label, batch: Batch): set<Label>
    requires BatchReady(db, target, batch)
  {
    if target in db.nodes && BatchMid(db, target, batch).nodes[target].statementHash != db.nodes[target].statementHash
    then batch.Keys - Elements(BatchTurns(db, target, batch).popped)
    else batch.Keys
  }

  /** The labels the event cites all have nodes, as far as nothing hashes the citing node again. */
  ghost predicate FitsRefs(db: Db, event: Event) {
    Decides(db, event) ==>
      match event.body
      case NodeAdded(draft) => RefsKnown(db.nodes.Keys, DraftRefs(draft.value))
      case NodeRevised(draft) => RefsKnown(db.nodes.Keys, DraftRefs(draft.value))
      case BatchCommitted(target, entries) =>
        BatchReady(db, target, BatchOf(entries))
        && MembersResolve(db, BatchOf(entries), HashedOnce(db, target, BatchOf(entries)))
      case _ => true
  }

  lemma HintSame(db: Db, target: Option<Label>, hint: string, stamp: string)
    requires ApplyHint(db, target, hint, stamp).Accept?
    ensures var db' := ApplyHint(db, target, hint, stamp).db;
            && (EdgesCurrent(db.nodes, db.edges) ==> EdgesCurrent(db'.nodes, db'.edges))
            && (Coherent(db.nodes, db.edges) ==> Coherent(db'.nodes, db'.edges))
  {
    var db' := ApplyHint(db, target, hint, stamp).db;
    SameHashesSame(db.nodes, db'.nodes, db.edges);
  }

  lemma VerdictSame(db: Db, target: Option<Label>, run: Option<Run>)
    requires ApplyVerdict(db, target, run).Accept?
    ensures var db' := ApplyVerdict(db, target, run).db;
            && (EdgesCurrent(db.nodes, db.edges) ==> EdgesCurrent(db'.nodes, db'.edges))
            && (Coherent(db.nodes, db.edges) ==> Coherent(db'.nodes, db'.edges))
  {
    var db' := ApplyVerdict(db, target, run).db;
    SameHashesSame(db.nodes, db'.nodes, db.edges);
  }

  /** One event keeps every edge current exactly when its turns fit. */
  lemma EventCurrent(db: Db, event: Event)
    requires Valid(db) && EdgesCurrent(db.nodes, db.edges) && Decide(db, event).Accept?
    ensures Decides(db, event) ==>
              (EdgesCurrent(Decide(db, event).db.nodes, Decide(db, event).db.edges) <==> FitsTurns(db, event))
  {
    match event.body
    case NodeAdded(draft) => AddedCurrent(db, event.target, draft);
    case NodeRevised(draft) => RevisedCurrent(db, event.target, draft);
    case HintAttached(hint, stamp) => HintSame(db, event.target, hint, stamp);
    case BatchCommitted(target, entries) => BatchCurrent(db, target, entries);
    case VerifierRun(run) => VerdictSame(db, event.target, run);
  }

  /** A revision keeps coherence exactly when its turns fit and everything it cites has a node. */
  lemma RevisedFits(db: Db, target: Option<Label>, draft: Option<Draft>)
    requires Valid(db) && Coherent(db.nodes, db.edges) && ApplyRevised(db, target, draft).Accept?
    ensures var db' := ApplyRevised(db, target, draft).db;
            Coherent(db'.nodes, db'.edges) <==>
            RefsKnown(db.nodes.Keys, DraftRefs(draft.value)) && TurnsFitRevision(db, target.value, draft.value)
  {
    var name, kind := target.value, ParseKind(draft.value.kind).value;
    RevisedCoherence(db, target, draft);
    RevisedDbValid(db, name, kind, draft.value);
    StartKeepsHash(RevisedDb(db, name, kind, draft.value), name);
  }

  lemma BatchFitsBoth(db: Db, target: Label, entries: seq<BatchEntry>)
    requires Valid(db) && Coherent(db.nodes, db.edges) && ApplyBatch(db, target, entries).Accept?
    ensures BatchReady(db, target, BatchOf(entries))
    ensures var db', batch := ApplyBatch(db, target, entries).db, BatchOf(entries);
            Coherent(db'.nodes, db'.edges) <==>
            TurnsFitBatch(db, target, batch) && MembersResolve(db, batch, HashedOnce(db, target, batch))
  {
    BatchCoherence(db, target, entries);
  }

  /** One event keeps coherence exactly when its turns and its references fit. */
  lemma EventCoherent(db: Db, event: Event)
    requires Valid(db) && Coherent(db.nodes, db.edges) && Decide(db, event).Accept?
    ensures Decides(db, event) ==>
              (Coherent(Decide(db, event).db.nodes, Decide(db, event).db.edges)
               <==> FitsTurns(db, event) && FitsRefs(db, event))
  {
    match event.body
    case NodeAdded(draft) => AddedCoherence(db, event.target, draft);
    case NodeRevised(draft) => RevisedFits(db, event.target, draft);
    case HintAttached(hint, stamp) => HintSame(db, event.target, hint, stamp);
    case BatchCommitted(target, entries) => BatchFitsBoth(db, target, entries);
    case VerifierRun(run) => VerdictSame(db, event.target, run);
  }

  lemma StepCurrent(log: seq<Event>, j: nat)
    requires j < |log| && EdgesCurrent(At(log, j).nodes, At(log, j).edges)
    ensures EdgesCurrent(At(log, j + 1).nodes, At(log, j + 1).edges) <==> FitsTurns(At(log, j), log[j])
  {
    AtStep(log, j);
    if Decides(At(log, j), log[j]) {
      EventCurrent(At(log, j), log[j]);
    } else {
      StepKeepsGraph(At(log, j), log[j]);
    }
  }

  lemma StepKeepsGraph(db: Db, event: Event)
    requires !Decides(db, event)
    ensures Apply(db, event).0.nodes == db.nodes && Apply(db, event).0.edges == db.edges
  {
  }

  lemma StepCoherent(log: seq<Event>, j: nat)
    requires j < |log| && Coherent(At(log, j).nodes, At(log, j).edges)
    ensures Coherent(At(log, j + 1).nodes, At(log, j + 1).edges)
       <==> FitsTurns(At(log, j), log[j]) && FitsRefs(At(log, j), log[j])
  {
    AtStep(log, j);
    if Decides(At(log, j), log[j]) {
      EventCoherent(At(log, j), log[j]);
    } else {
      StepKeepsGraph(At(log, j), log[j]);
    }
  }

  ghost predicate CurrentAfter(log: seq<Event>, m: nat) {
    m <= |log| && EdgesCurrent(At(log, m).nodes, At(log, m).edges)
  }

  ghost predicate CoherentAfter(log: seq<Event>, m: nat) {
    m <= |log| && Coherent(At(log, m).nodes, At(log, m).edges)
  }

  ghost predicate TurnsFitAt(log: seq<Event>, j: nat) {
    j < |log| && FitsTurns(At(log, j), log[j])
  }

  ghost predicate FitsAt(log: seq<Event>, j: nat) {
    TurnsFitAt(log, j) && FitsRefs(At(log, j), log[j])
  }

  lemma NextCurrent(log: seq<Event>, j: nat)
    requires CurrentAfter(log, j) && j < |log|
    ensures CurrentAfter(log, j + 1) <==> TurnsFitAt(log, j)
  {
    StepCurrent(log, j);
  }

  lemma NextCoherent(log: seq<Event>, j: nat)
    requires CoherentAfter(log, j) && j < |log|
    ensures CoherentAfter(log, j + 1) <==> FitsAt(log, j)
  {
    StepCoherent(log, j);
  }

  lemma EmptyStart(log: seq<Event>)
    ensures CurrentAfter(log, 0) && CoherentAfter(log, 0)
  {
    assert At(log, 0) == EMPTY_DB;
  }

  /** The states after 0 to n events all have current edges. */
  ghost predicate AllCurrent(log: seq<Event>, n: nat) {
    CurrentAfter(log, n) && (n > 0 ==> AllCurrent(log, n - 1))
  }

  ghost predicate AllCoherent(log: seq<Event>, n: nat) {
    CoherentAfter(log, n) && (n > 0 ==> AllCoherent(log, n - 1))
  }

  /** The turns of the first n events all fit. */
  ghost predicate AllTurnsFit(log: seq<Event>, n: nat) {
    n > 0 ==> TurnsFitAt(log, n - 1) && AllTurnsFit(log, n - 1)
  }

  ghost predicate AllFit(log: seq<Event>, n: nat) {
    n > 0 ==> FitsAt(log, n - 1) && AllFit(log, n - 1)
  }

  /** Every state of a log has current edges exactly when the turns of each event fit. */
  lemma {:induction false} LogCurrent(log: seq<Event>, n: nat)
    requires n <= |log|
    ensures AllCurrent(log, n) <==> AllTurnsFit(log, n)
  {
    if n == 0 {
      EmptyStart(log);
    } else {
      LogCurrent(log, n - 1);
      if AllCurrent(log, n - 1) {
        NextCurrent(log, n - 1);
      }
    }
  }

  /** Every state of a log is coherent exactly when the turns and references of each event fit. */
  lemma {:induction false} LogCoherent(log: seq<Event>, n: nat)
    requires n <= |log|
    ensures AllCoherent(log, n) <==> AllFit(log, n)
  {
    if n == 0 {
      EmptyStart(log);
    } else {
      LogCoherent(log, n - 1);
      if AllCoherent(log, n - 1) {
        NextCoherent(log, n - 1);
      }
    }
  }
}
