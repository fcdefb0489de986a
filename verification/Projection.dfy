/** What each event does to the knowledge base (librarian/projector.py), as a function
    of the state before. The Projector class is proved against it. */
module Projection {
  import opened Graphs
  import opened Hashing
  import opened Hints
  import opened Labels
  import opened MerkleCascade
  import opened Search
  import opened Store
  import opened Texts

  datatype Draft = Draft(kind: string, statement: string, proof: string, remark: string, sourceNote: string)

  /** One nodes[] entry of a batch; draft is None when a required field is missing. */
  datatype BatchEntry = BatchEntry(name: Option<Label>, draft: Option<Draft>)

  datatype Run = Run(verdict: string, verificationHash: Hash, report: string, hint: string)

  datatype Body =
    | NodeAdded(draft: Option<Draft>)
    | NodeRevised(draft: Option<Draft>)
    | HintAttached(hint: string, stamp: string)
    | BatchCommitted(batchTarget: Label, entries: seq<BatchEntry>)
    | VerifierRun(run: Option<Run>)

  /** admissible: the envelope is well-formed and its producer is registered. */
  datatype Event = Event(id: EventId, sha: string, admissible: bool, target: Option<Label>, body: Body)

  datatype Decision = Accept(db: Db, target: Label) | Reject(reason: Reason)

  datatype ApplyResult = Applied | ApplyFailed(reason: Reason) | Corruption

  predicate ContentFits(name: Label, kind: Kind, draft: Draft) {
    && LabelFits(name, kind)
    && draft.statement != ""
    && (!RequiresProof(kind) ==> draft.proof == "")
    && (kind.ExternalTheorem? ==> Strip(draft.sourceNote) != "")
  }

  function FreshRow(name: Label, kind: Kind, draft: Draft, deps: map<Label, Hash>): Row {
    var sh := StatementHash(name, kind, draft.statement, deps);
    Row(kind, draft.statement, draft.proof, draft.remark, draft.sourceNote, sh, VerificationHash(sh, draft.proof),
        InitialCount(kind, draft.proof), 0, "", "")
  }

  function Assembled(nodes: Nodes, name: Label, kind: Kind, draft: Draft): Row {
    FreshRow(name, kind, draft, AssembledDeps(nodes, name, RefsOf(draft.statement, draft.proof)))
  }

  /** The row written over an existing one: verdict traces survive only unchanged hashes. */
  function Revised(prior: Row, rewritten: Row): Row {
    var sameVerification := rewritten.verificationHash == prior.verificationHash;
    rewritten.(repairCount := if rewritten.statementHash == prior.statementHash then prior.repairCount else 0,
    report := if sameVerification then prior.report else "",
    hint := if sameVerification then prior.hint else "")
  }

  function WithCascade(db: Db, name: Label, prior: Row): Db
    requires name in db.nodes
  {
    if db.nodes[name].statementHash == prior.statementHash then db
    else db.(nodes := CascadeFrom(db.nodes, db.edges, name).nodes)
  }

  ghost function ApplyAdded(db: Db, target: Option<Label>, draft: Option<Draft>): Decision {
    if target.None? || draft.None? then Reject(Schema)
    else
      var name, d := target.value, draft.value;
      var kind := ParseKind(d.kind);
      if kind.None? || !ContentFits(name, kind.value, d) then Reject(Schema)
      else if name in db.nodes then Reject(LabelConflict)
      else
        var db' := PutNode(db, name, Assembled(db.nodes, name, kind.value, d));
        if Acyclic(db'.edges) then Accept(db', name) else Reject(Cycle)
  }

  function RevisedDb(db: Db, name: Label, kind: Kind, draft: Draft): Db
    requires name in db.nodes
  {
    PutNode(db, name, Revised(db.nodes[name], Assembled(db.nodes, name, kind, draft)))
  }

  ghost function ApplyRevised(db: Db, target: Option<Label>, draft: Option<Draft>): Decision {
    if target.None? then Reject(Schema)
    else
      var name := target.value;
      if name !in db.nodes then Reject(RefMissing)
      else if draft.None? || ParseKind(draft.value.kind).None? then Reject(Schema)
      else
        var kind := ParseKind(draft.value.kind).value;
        if kind != db.nodes[name].kind then Reject(KindMutation)
        else if !ContentFits(name, kind, draft.value) then Reject(Schema)
        else
          var db' := RevisedDb(db, name, kind, draft.value);
          if Acyclic(db'.edges) then Accept(WithCascade(db', name, db.nodes[name]), name) else Reject(Cycle)
  }

  ghost function ApplyHint(db: Db, target: Option<Label>, hint: string, stamp: string): Decision {
    if target.None? || Strip(hint) == "" then Reject(Schema)
    else if target.value !in db.nodes then Reject(HintTargetMissing)
    else
      var name := target.value;
      var row := db.nodes[name];
      if row.passCount >= 1 then Reject(HintTargetUnreachable)
      else Accept(db.(nodes := db.nodes[name := row.(hint := AttachUserSection(row.hint, stamp, hint))]), name)
  }

  // ---- generator.batch_committed ----

  type Batch = map<Label, Draft>

  predicate EntryFits(entry: BatchEntry) {
    && entry.name.Some? && entry.draft.Some?
    && ParseKind(entry.draft.value.kind).Some?
    && !ParseKind(entry.draft.value.kind).value.ExternalTheorem?
    && LabelFits(entry.name.value, ParseKind(entry.draft.value.kind).value)
  }

  predicate EntriesFit(entries: seq<BatchEntry>) {
    && (forall i :: 0 <= i < |entries| ==> EntryFits(entries[i]))
    && (forall i, j :: 0 <= i < j < |entries| ==> entries[i].name != entries[j].name)
  }

  predicate BatchFits(target: Label, entries: seq<BatchEntry>) {
    && target != "" && EntriesFit(entries)
    && exists i :: 0 <= i < |entries| && entries[i].name == Some(target)
  }

  /** The entry list of a fitting batch, looked up by name. */
  function BatchOf(entries: seq<BatchEntry>): (batch: Batch)
    requires EntriesFit(entries)
    ensures KindsParse(batch)
  {
    map i | 0 <= i < |entries| && EntryFits(entries[i]) :: entries[i].name.value := entries[i].draft.value
  }

  function DraftRefs(draft: Draft): (r: seq<Label>)
    ensures Distinct(r)
  {
    RefsOf(draft.statement, draft.proof)
  }

  predicate KindsParse(batch: Batch) {
    forall x :: x in batch ==> ParseKind(batch[x].kind).Some?
  }

  function KindIn(batch: Batch, name: Label): Kind
    requires name in batch && KindsParse(batch)
  {
    ParseKind(batch[name].kind).value
  }

  /** References between different members of the batch. */
  function BatchGraph(batch: Batch): Graph<Label> {
    set x, d | x in batch && d in DraftRefs(batch[x]) && d in batch && d != x :: (x, d)
  }

  function StagedDeps(nodes: Nodes, hashes: map<Label, Hash>, name: Label, refs: seq<Label>): map<Label, Hash> {
    map d | d in refs :: if d == name then NoHash else if d in hashes then hashes[d] else HashOf(nodes, d)
  }

  ghost predicate StagedAt(nodes: Nodes, batch: Batch, hashes: map<Label, Hash>, x: Label)
    requires KindsParse(batch) && x in batch && x in hashes
  {
    hashes[x] == StatementHash(x, KindIn(batch, x), batch[x].statement,
                               StagedDeps(nodes, hashes, x, DraftRefs(batch[x])))
  }

  /** hashes gives every member of the batch the hash of its statement and of the hashes of
      what it cites: batch members from hashes itself, everything else from the store. */
  ghost predicate IsStaging(nodes: Nodes, batch: Batch, hashes: map<Label, Hash>)
    requires KindsParse(batch)
  {
    hashes.Keys == batch.Keys && forall x :: x in batch ==> StagedAt(nodes, batch, hashes, x)
  }

  /** Members done so far are staged and cite no batch member outside them. */
  ghost predicate PartlyStaged(nodes: Nodes, batch: Batch, hashes: map<Label, Hash>)
    requires KindsParse(batch)
  {
    && hashes.Keys <= batch.Keys
    && (forall x :: x in hashes ==> StagedAt(nodes, batch, hashes, x))
    && (forall e :: e in BatchGraph(batch) && e.0 in hashes ==> e.1 in hashes)
  }

  function StageOne(nodes: Nodes, batch: Batch, hashes: map<Label, Hash>, x: Label): map<Label, Hash>
    requires KindsParse(batch) && x in batch
  {
    hashes[x := StatementHash(x, KindIn(batch, x), batch[x].statement,
                              StagedDeps(nodes, hashes, x, DraftRefs(batch[x])))]
  }

  lemma UncitedHashIrrelevant(nodes: Nodes, batch: Batch, hashes: map<Label, Hash>, x: Label, y: Label)
    requires KindsParse(batch) && PartlyStaged(nodes, batch, hashes)
    requires x in batch && x !in hashes && (y == x || y in hashes)
    ensures StagedDeps(nodes, StageOne(nodes, batch, hashes, x), y, DraftRefs(batch[y]))
         == StagedDeps(nodes, hashes, y, DraftRefs(batch[y]))
  {
    assert forall d :: d in DraftRefs(batch[y]) && d in batch && d != y ==> (y, d) in BatchGraph(batch);
  }

  lemma StageOneKeeps(nodes: Nodes, batch: Batch, hashes: map<Label, Hash>, x: Label)
    requires KindsParse(batch) && PartlyStaged(nodes, batch, hashes)
    requires x in batch && x !in hashes && forall d :: (x, d) in BatchGraph(batch) ==> d in hashes
    ensures PartlyStaged(nodes, batch, StageOne(nodes, batch, hashes, x))
  {
    var hashes' := StageOne(nodes, batch, hashes, x);
    forall y | y in hashes' ensures StagedAt(nodes, batch, hashes', y) {
      var refs := DraftRefs(batch[y]);
      UncitedHashIrrelevant(nodes, batch, hashes, x, y);
    }
  }

  lemma {:induction false} StagingFrom(nodes: Nodes, batch: Batch, hashes: map<Label, Hash>)
    returns (r: map<Label, Hash>)
    requires KindsParse(batch) && PartlyStaged(nodes, batch, hashes) && Acyclic(BatchGraph(batch))
    ensures IsStaging(nodes, batch, r)
    decreases batch.Keys - hashes.Keys
  {
    var left := batch.Keys - hashes.Keys;
    if left == {} {
      forall x | x in batch ensures x in hashes {
        assert x !in left;
      }
      r := hashes;
    } else {
      var x := MinimalExists(BatchGraph(batch), left);
      StageOneKeeps(nodes, batch, hashes, x);
      var hashes' := StageOne(nodes, batch, hashes, x);
      assert x in left && x !in batch.Keys - hashes'.Keys;
      r := StagingFrom(nodes, batch, hashes');
    }
  }

  lemma StagedAlike(nodes: Nodes, batch: Batch, a: map<Label, Hash>, b: map<Label, Hash>, x: Label)
    requires KindsParse(batch) && IsStaging(nodes, batch, a) && IsStaging(nodes, batch, b) && x in batch
    requires forall d :: (x, d) in BatchGraph(batch) ==> a[d] == b[d]
    ensures a[x] == b[x]
  {
    var refs := DraftRefs(batch[x]);
    forall d | d in refs && d != x && d in batch ensures a[d] == b[d] {
      assert (x, d) in BatchGraph(batch);
    }
    assert StagedDeps(nodes, a, x, refs) == StagedDeps(nodes, b, x, refs);
    assert StagedAt(nodes, batch, a, x) && StagedAt(nodes, batch, b, x);
  }

  /** An acyclic batch has one staging only: the order of hashing does not matter. */
  lemma StagingUnique(nodes: Nodes, batch: Batch, a: map<Label, Hash>, b: map<Label, Hash>)
    requires KindsParse(batch) && Acyclic(BatchGraph(batch))
    requires IsStaging(nodes, batch, a) && IsStaging(nodes, batch, b)
    ensures a == b
  {
    var differ := set x | x in batch && a[x] != b[x];
    if differ != {} {
      var x := MinimalExists(BatchGraph(batch), differ);
      StagedAlike(nodes, batch, a, b, x);
    }
    forall x | x in batch ensures a[x] == b[x] {
      assert x !in differ;
    }
  }

  ghost function Staging(nodes: Nodes, batch: Batch): (hashes: map<Label, Hash>)
    requires KindsParse(batch) && Acyclic(BatchGraph(batch))
    ensures IsStaging(nodes, batch, hashes)
  {
    assert exists h :: IsStaging(nodes, batch, h) by {
      var h := StagingFrom(nodes, batch, map[]);
    }
    var hashes :| IsStaging(nodes, batch, hashes);
    hashes
  }

  function StagedRow(batch: Batch, hashes: map<Label, Hash>, x: Label): Row
    requires KindsParse(batch) && x in batch && x in hashes
  {
    var d := batch[x];
    FreshRow(x, KindIn(batch, x), d, map[]).(statementHash := hashes[x],
    verificationHash := VerificationHash(hashes[x], d.proof))
  }

  function BatchRow(nodes: Nodes, target: Label, batch: Batch, hashes: map<Label, Hash>, x: Label): Row
    requires KindsParse(batch) && x in batch && x in hashes
  {
    var rewritten := StagedRow(batch, hashes, x);
    if x == target && x in nodes then Revised(nodes[x], rewritten) else rewritten
  }

  function BatchNodes(nodes: Nodes, target: Label, batch: Batch, hashes: map<Label, Hash>): Nodes
    requires KindsParse(batch) && hashes.Keys == batch.Keys
  {
    map x | x in nodes.Keys + batch.Keys :: if x in batch then BatchRow(nodes, target, batch, hashes, x) else nodes[x]
  }

  function BatchEdges(edges: Graph<Label>, known: set<Label>, batch: Batch): Graph<Label> {
    (set e | e in edges && e.0 !in batch) + (set x, d | x in batch && d in DraftRefs(batch[x]) && d in known :: (x, d))
  }

  function BatchDb(db: Db, target: Label, batch: Batch, hashes: map<Label, Hash>): Db
    requires KindsParse(batch) && hashes.Keys == batch.Keys
  {
    db.(nodes := BatchNodes(db.nodes, target, batch, hashes),
    edges := BatchEdges(db.edges, db.nodes.Keys + batch.Keys, batch))
  }

  /** The rest of a batch whose labels are free and whose own references are acyclic. */
  ghost function CommitBatch(db: Db, target: Label, batch: Batch): Decision
    requires KindsParse(batch) && Acyclic(BatchGraph(batch)) && target in batch
  {
    if target in db.nodes && db.nodes[target].kind != KindIn(batch, target) then Reject(KindMutation)
    else
      var db' := BatchDb(db, target, batch, Staging(db.nodes, batch));
      if !Acyclic(db'.edges) then Reject(Cycle)
      else if target in db.nodes then Accept(WithCascade(db', target, db.nodes[target]), target)
      else Accept(db', target)
  }

  ghost function ApplyBatch(db: Db, target: Label, entries: seq<BatchEntry>): Decision {
    if !BatchFits(target, entries) then Reject(Schema)
    else
      var batch := BatchOf(entries);
      assert target in batch;
      if exists x :: x in batch && x != target && x in db.nodes then Reject(LabelConflict)
      else if !Acyclic(BatchGraph(batch)) then Reject(Cycle)
      else CommitBatch(db, target, batch)
  }

  // ---- verifier.run_completed ----

  function VerdictRow(row: Row, run: Run): Row {
    if run.verdict == "accepted" then
      row.(passCount := if row.passCount >= 0 then row.passCount + 1 else 1, report := run.report)
    else
      row.(passCount := -1, repairCount := row.repairCount + 1, report := run.report,
      hint := MergeVerifierSection(row.hint, run.hint))
  }

  ghost function ApplyVerdict(db: Db, target: Option<Label>, run: Option<Run>): Decision {
    if target.None? || run.None? || run.value.verdict !in {"accepted", "gap", "critical"} then Reject(Schema)
    else
      var name := target.value;
      if name !in db.nodes then Reject(RefMissing)
      else if run.value.verificationHash != db.nodes[name].verificationHash then Reject(HashMismatch)
      else Accept(db.(nodes := db.nodes[name := VerdictRow(db.nodes[name], run.value)]), name)
  }

  // ---- one event, and the whole log ----

  ghost function Decide(db: Db, event: Event): Decision {
    match event.body
    case NodeAdded(draft) => ApplyAdded(db, event.target, draft)
    case NodeRevised(draft) => ApplyRevised(db, event.target, draft)
    case HintAttached(hint, stamp) => ApplyHint(db, event.target, hint, stamp)
    case BatchCommitted(target, entries) => ApplyBatch(db, target, entries)
    case VerifierRun(run) => ApplyVerdict(db, event.target, run)
  }

  function ResultOf(recorded: AppliedEvent): ApplyResult {
    if recorded.failure.None? then Applied else ApplyFailed(recorded.failure.value)
  }

  ghost function Apply(db: Db, event: Event): (Db, ApplyResult) {
    if !event.admissible then (db, Corruption)
    else if event.id in db.applied then
      var recorded := db.applied[event.id];
      if recorded.sha != event.sha then (db, Corruption) else (db, ResultOf(recorded))
    else
      match Decide(db, event)
      case Accept(db', target) =>
        (db'.(applied := db.applied[event.id := AppliedEvent(None, event.sha, Some(target))]), Applied)
      case Reject(reason) =>
        (db.(applied := db.applied[event.id := AppliedEvent(Some(reason), event.sha, event.target)]),
         ApplyFailed(reason))
  }

  /** rebuild_from_events on a log: apply its events in order to the wiped store. */
  ghost function Replay(events: seq<Event>): Db {
    if events == [] then EMPTY_DB else Apply(Replay(events[..|events| - 1]), events[|events| - 1]).0
  }

  lemma ReplayNext(log: seq<Event>, k: nat)
    requires k < |log|
    ensures Replay(log[..k + 1]) == Apply(Replay(log[..k]), log[k]).0
  {
    assert log[..k + 1][..k] == log[..k];
  }

  // ---- the causal order of the log ----

  predicate Before(a: EventId, b: EventId) {
    || a.isoMs < b.isoMs
    || (a.isoMs == b.isoMs && (a.sequence < b.sequence || (a.sequence == b.sequence && a.uid < b.uid)))
  }

  ghost predicate InKeyOrder(log: seq<Event>) {
    forall i, j :: 0 <= i < j < |log| ==> Before(log[i].id, log[j].id)
  }
}
