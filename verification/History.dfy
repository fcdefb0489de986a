/** How one node's counters evolve over a log: since the event that last reset them, they
    are the fold of the applied verdicts on that node. */
module History {
  import opened Coherence
  import opened Footprint
  import opened Graphs
  import opened Hashing
  import opened Hints
  import opened Invariants
  import opened Labels
  import opened MerkleCascade
  import opened Projection
  import opened Search
  import opened Store
  import opened Texts

  /** The event writes the statement of x. */
  predicate Sets(event: Event, x: Label) {
    match event.body
    case NodeAdded(_) => event.target == Some(x)
    case NodeRevised(_) => event.target == Some(x)
    case BatchCommitted(_, entries) => x in EntryNames(entries)
    case _ => false
  }

  /** What an event that is neither verdict nor hint may do to the verdict traces of x: keep them
      with the hashes they belong to, or start them anew. */
  ghost predicate Effect(nodes: Nodes, sets: bool, x: Label, row: Row) {
    && row.repairCount == (if x in nodes && nodes[x].statementHash == row.statementHash then nodes[x].repairCount
                           else 0)
    && row.passCount == (if x in nodes && !sets && nodes[x].verificationHash == row.verificationHash
                         then nodes[x].passCount
                         else InitialCount(row.kind, row.proof))
    && row.hint == (if x in nodes && nodes[x].verificationHash == row.verificationHash then nodes[x].hint else "")
    && row.report == (if x in nodes && nodes[x].verificationHash == row.verificationHash then nodes[x].report else "")
    && (!sets ==> x in nodes && SameText(nodes[x], row))
  }

  lemma CascadeRow(db: Db, name: Label, prior: Row, x: Label)
    requires Valid(db) && name in db.nodes && x in db.nodes
    ensures var db' := WithCascade(db, name, prior);
            && db'.nodes.Keys == db.nodes.Keys
            && (db'.nodes[x] == db.nodes[x] || (x != name && ResetRow(db.nodes[x], db'.nodes[x])))
  {
    WithCascadeKeys(db, name, prior);
    ValidRowsHashed(db);
    CascadeShape(db.nodes, db.edges, SortedLabels(DependentsOf(db.edges, name)), {});
    StartKeepsHash(db, name);
  }

  lemma RevisedEffect(db: Db, name: Label, kind: Kind, draft: Draft, x: Label)
    requires Valid(db) && name in db.nodes && LabelFits(name, kind) && Acyclic(RevisedDb(db, name, kind, draft).edges)
    requires x in db.nodes
    ensures var db' := WithCascade(RevisedDb(db, name, kind, draft), name, db.nodes[name]);
            db'.nodes.Keys == db.nodes.Keys && Effect(db.nodes, x == name, x, db'.nodes[x])
  {
    RevisedDbValid(db, name, kind, draft);
    CascadeRow(RevisedDb(db, name, kind, draft), name, db.nodes[name], x);
    RewrittenEffect(db, name, kind, draft);
    if x != name {
      ResetEffect(db.nodes, x, WithCascade(RevisedDb(db, name, kind, draft), name, db.nodes[name]).nodes[x]);
    }
  }

  lemma RewrittenEffect(db: Db, name: Label, kind: Kind, draft: Draft)
    requires name in db.nodes
    ensures Effect(db.nodes, true, name, RevisedDb(db, name, kind, draft).nodes[name])
  {
  }

  lemma ResetEffect(nodes: Nodes, x: Label, row: Row)
    requires x in nodes && (row == nodes[x] || ResetRow(nodes[x], row))
    ensures Effect(nodes, false, x, row)
  {
  }

  lemma BatchNames(target: Label, entries: seq<BatchEntry>, x: Label)
    requires BatchFits(target, entries)
    ensures x in BatchOf(entries) <==> x in EntryNames(entries)
  {
    if x in EntryNames(entries) {
      var i :| 0 <= i < |entries| && entries[i].name == Some(x);
      assert EntryFits(entries[i]);
    }
  }

  lemma MidEffect(db: Db, target: Label, batch: Batch, x: Label)
    requires BatchReady(db, target, batch) && x in BatchMid(db, target, batch).nodes
    ensures Effect(db.nodes, x in batch, x, BatchMid(db, target, batch).nodes[x])
    ensures x !in batch ==> x in db.nodes && BatchMid(db, target, batch).nodes[x] == db.nodes[x]
    ensures x in batch && x in db.nodes ==> x == target
  {
  }

  lemma BatchEffect(db: Db, target: Label, entries: seq<BatchEntry>, x: Label)
    requires Valid(db) && ApplyBatch(db, target, entries).Accept? && x in ApplyBatch(db, target, entries).db.nodes
    ensures Effect(db.nodes, x in EntryNames(entries), x, ApplyBatch(db, target, entries).db.nodes[x])
  {
    var batch := BatchOf(entries);
    AcceptedBatch(db, target, entries);
    BatchNames(target, entries, x);
    var mid := BatchMid(db, target, batch);
    if target in db.nodes {
      WithCascadeKeys(mid, target, db.nodes[target]);
      MidEffect(db, target, batch, x);
      CascadeRow(mid, target, db.nodes[target], x);
    } else {
      MidEffect(db, target, batch, x);
    }
  }

  lemma AddedEffect(db: Db, target: Option<Label>, draft: Option<Draft>, x: Label)
    requires ApplyAdded(db, target, draft).Accept? && x in ApplyAdded(db, target, draft).db.nodes
    ensures Effect(db.nodes, target == Some(x), x, ApplyAdded(db, target, draft).db.nodes[x])
  {
  }

  lemma HintEffect(db: Db, target: Option<Label>, hint: string, stamp: string, x: Label)
    requires ApplyHint(db, target, hint, stamp).Accept? && x in ApplyHint(db, target, hint, stamp).db.nodes
    ensures x in db.nodes
    ensures ApplyHint(db, target, hint, stamp).db.nodes[x] ==
            if target == Some(x) then db.nodes[x].(hint := AttachUserSection(db.nodes[x].hint, stamp, hint))
            else db.nodes[x]
  {
  }

  lemma RevisionEffect(db: Db, target: Option<Label>, draft: Option<Draft>, x: Label)
    requires Valid(db) && ApplyRevised(db, target, draft).Accept? && x in ApplyRevised(db, target, draft).db.nodes
    ensures Effect(db.nodes, target == Some(x), x, ApplyRevised(db, target, draft).db.nodes[x])
  {
    var name, kind := target.value, ParseKind(draft.value.kind).value;
    RevisedDbValid(db, name, kind, draft.value);
    WithCascadeKeys(RevisedDb(db, name, kind, draft.value), name, db.nodes[name]);
    RevisedEffect(db, name, kind, draft.value, x);
  }

  /** Adding, revising and batches: the effect on every node. */
  lemma EventEffect(db: Db, event: Event, x: Label)
    requires Valid(db) && Decide(db, event).Accept? && !event.body.VerifierRun? && !event.body.HintAttached?
    requires x in Decide(db, event).db.nodes
    ensures Effect(db.nodes, Sets(event, x), x, Decide(db, event).db.nodes[x])
  {
    match event.body
    case NodeAdded(draft) => AddedEffect(db, event.target, draft, x);
    case NodeRevised(draft) => RevisionEffect(db, event.target, draft, x);
    case BatchCommitted(target, entries) => BatchEffect(db, target, entries, x);
  }

  // ---- verdict sequences ----

  predicate Refused(verdict: string) {
    verdict == "gap" || verdict == "critical"
  }

  predicate Known(verdict: string) {
    verdict == "accepted" || Refused(verdict)
  }

  /** One verdict's effect on pass_count; an unknown verdict has none. */
  function CountStep(count: int, verdict: string): int {
    if verdict == "accepted" then (if count >= 0 then count + 1 else 1)
    else if Refused(verdict) then -1
    else count
  }

  function CountAfter(start: int, runs: seq<Run>): int {
    if runs == [] then start
    else CountStep(CountAfter(start, runs[..|runs| - 1]), runs[|runs| - 1].verdict)
  }

  function Refusals(runs: seq<Run>): nat {
    if runs == [] then 0
    else Refusals(runs[..|runs| - 1]) + if Refused(runs[|runs| - 1].verdict) then 1 else 0
  }

  function Accepted(runs: seq<Run>): seq<Run> {
    if runs == [] then []
    else
      var earlier, last := Accepted(runs[..|runs| - 1]), runs[|runs| - 1];
      if last.verdict == "accepted" then earlier + [last] else earlier
  }

  /** The runs that carry the hash. */
  function Carrying(runs: seq<Run>, vh: Hash): (r: seq<Run>) {
    if runs == [] then []
    else
      var earlier, last := Carrying(runs[..|runs| - 1], vh), runs[|runs| - 1];
      if last.verificationHash == vh then earlier + [last] else earlier
  }

  lemma CarryingPush(runs: seq<Run>, run: Run, vh: Hash)
    ensures Carrying(runs + [run], vh) == if run.verificationHash == vh then Carrying(runs, vh) + [run]
                                          else Carrying(runs, vh)
  {
    assert (runs + [run])[..|runs|] == runs;
  }

  lemma {:induction false} CarryingConcat(a: seq<Run>, b: seq<Run>, vh: Hash)
    ensures Carrying(a + b, vh) == Carrying(a, vh) + Carrying(b, vh)
  {
    if b == [] {
      assert a + b == a;
    } else {
      var rest, last := b[..|b| - 1], b[|b| - 1];
      CarryingConcat(a, rest, vh);
      assert a + b == (a + rest) + [last];
      CarryingPush(a + rest, last, vh);
    }
  }

  lemma {:induction false} CarryingAll(runs: seq<Run>, vh: Hash)
    requires forall i :: 0 <= i < |runs| ==> runs[i].verificationHash == vh
    ensures Carrying(runs, vh) == runs
  {
    if runs != [] {
      CarryingAll(runs[..|runs| - 1], vh);
    }
  }

  lemma PushRun(start: int, runs: seq<Run>, run: Run)
    ensures CountAfter(start, runs + [run]) == CountStep(CountAfter(start, runs), run.verdict)
    ensures Refusals(runs + [run]) == Refusals(runs) + if Refused(run.verdict) then 1 else 0
  {
    assert (runs + [run])[..|runs|] == runs;
  }

  lemma {:induction false} RunsConcat(start: int, a: seq<Run>, b: seq<Run>)
    ensures CountAfter(start, a + b) == CountAfter(CountAfter(start, a), b)
    ensures Refusals(a + b) == Refusals(a) + Refusals(b)
  {
    if b == [] {
      assert a + b == a;
    } else {
      var rest, last := b[..|b| - 1], b[|b| - 1];
      assert a + b == (a + rest) + [last];
      RunsConcat(start, a, rest);
      PushRun(start, a + rest, last);
    }
  }

  // ---- the log ----

  ghost function At(log: seq<Event>, n: nat): Db
    requires n <= |log|
  {
    Replay(log[..n])
  }

  ghost predicate AcceptedAt(log: seq<Event>, j: nat) {
    j < |log| && log[j].admissible && log[j].id !in At(log, j).applied && Decide(At(log, j), log[j]).Accept?
  }

  lemma AtStep(log: seq<Event>, j: nat)
    requires j < |log|
    ensures At(log, j + 1) == Apply(At(log, j), log[j]).0
    ensures Valid(At(log, j)) && Valid(At(log, j + 1))
  {
    assert log[..j + 1][..j] == log[..j];
    ReplayValid(log[..j]);
    ReplayValid(log[..j + 1]);
  }

  /** A message to the author of x: a verdict or a user's hint. */
  datatype Message = Judged(run: Run) | Hinted(stamp: string, hint: string)

  /** The message on x that the event at j delivers, if it was applied. */
  ghost function MessageAt(log: seq<Event>, j: nat, x: Label): Option<Message> {
    if !AcceptedAt(log, j) || log[j].target != Some(x) then None
    else
      match log[j].body
      case VerifierRun(Some(run)) => Some(Judged(run))
      case HintAttached(hint, stamp) => Some(Hinted(stamp, hint))
      case _ => None
  }

  ghost predicate VerdictAt(log: seq<Event>, j: nat, x: Label) {
    AcceptedAt(log, j) && log[j].target == Some(x) && log[j].body.VerifierRun? && log[j].body.run.Some?
  }

  /** The runs of the verdicts on x applied at positions lo..hi. */
  ghost function Runs(log: seq<Event>, x: Label, lo: nat, hi: nat): seq<Run>
    requires hi <= |log|
  {
    if hi <= lo then []
    else if VerdictAt(log, hi - 1, x) then Runs(log, x, lo, hi - 1) + [log[hi - 1].body.run.value]
    else Runs(log, x, lo, hi - 1)
  }

  lemma {:induction false} RunsSplit(log: seq<Event>, x: Label, lo: nat, mid: nat, hi: nat)
    requires lo <= mid <= hi <= |log|
    ensures Runs(log, x, lo, hi) == Runs(log, x, lo, mid) + Runs(log, x, mid, hi)
  {
    if mid < hi {
      RunsSplit(log, x, lo, mid, hi - 1);
    }
  }

  /** The event at j starts pass_count of x anew: it creates x, writes its statement, or moves
      its verification hash. */
  ghost predicate RestartsAt(log: seq<Event>, j: nat, x: Label) {
    && j < |log| && x in At(log, j + 1).nodes
    && (|| x !in At(log, j).nodes
        || (AcceptedAt(log, j) && Sets(log[j], x))
        || At(log, j).nodes[x].verificationHash != At(log, j + 1).nodes[x].verificationHash)
  }

  /** The event at j creates x or moves its statement hash. */
  ghost predicate MovesAt(log: seq<Event>, j: nat, x: Label) {
    && j < |log| && x in At(log, j + 1).nodes
    && (x !in At(log, j).nodes || At(log, j).nodes[x].statementHash != At(log, j + 1).nodes[x].statementHash)
  }

  /** One past the last position below n where pass_count of x was restarted; 0 if there is none. */
  ghost function SinceRestart(log: seq<Event>, x: Label, n: nat): (since: nat)
    requires n <= |log|
    ensures since <= n
  {
    if n == 0 || RestartsAt(log, n - 1, x) then n else SinceRestart(log, x, n - 1)
  }

  /** One past the last position below n where the statement hash of x moved; 0 if there is none. */
  ghost function SinceMove(log: seq<Event>, x: Label, n: nat): (since: nat)
    requires n <= |log|
    ensures since <= n
  {
    if n == 0 || MovesAt(log, n - 1, x) then n else SinceMove(log, x, n - 1)
  }

  /** The event at j creates x or moves its verification hash. */
  ghost predicate ClearsAt(log: seq<Event>, j: nat, x: Label) {
    && j < |log| && x in At(log, j + 1).nodes
    && (x !in At(log, j).nodes || At(log, j).nodes[x].verificationHash != At(log, j + 1).nodes[x].verificationHash)
  }

  ghost function SinceClear(log: seq<Event>, x: Label, n: nat): (since: nat)
    requires n <= |log|
    ensures since <= n
  {
    if n == 0 || ClearsAt(log, n - 1, x) then n else SinceClear(log, x, n - 1)
  }

  ghost predicate AllCarry(runs: seq<Run>, vh: Hash) {
    forall i :: 0 <= i < |runs| ==> Known(runs[i].verdict) && runs[i].verificationHash == vh
  }

  /** What one event of the log does to the row of x. */
  ghost predicate StepOn(before: Nodes, sets: bool, message: Option<Message>, x: Label, row: Row) {
    match message
    case Some(Judged(run)) =>
      && x in before && Known(run.verdict) && run.verificationHash == before[x].verificationHash
      && row == VerdictRow(before[x], run)
    case Some(Hinted(stamp, hint)) =>
      && x in before && Strip(hint) != ""
      && row == before[x].(hint := AttachUserSection(before[x].hint, stamp, hint))
    case None => Effect(before, sets, x, row)
  }

  lemma VerdictEffect(db: Db, target: Option<Label>, run: Option<Run>, x: Label)
    requires ApplyVerdict(db, target, run).Accept? && x in ApplyVerdict(db, target, run).db.nodes
    ensures StepOn(db.nodes, false, if target == Some(x) then Some(Judged(run.value)) else None, x,
                   ApplyVerdict(db, target, run).db.nodes[x])
  {
  }

  lemma StepEffect(log: seq<Event>, j: nat, x: Label)
    requires j < |log| && x in At(log, j + 1).nodes
    ensures StepOn(At(log, j).nodes, AcceptedAt(log, j) && Sets(log[j], x), MessageAt(log, j, x), x,
                   At(log, j + 1).nodes[x])
  {
    AtStep(log, j);
    var db := At(log, j);
    if AcceptedAt(log, j) {
      match log[j].body
      case VerifierRun(run) => VerdictEffect(db, log[j].target, run, x);
      case HintAttached(hint, stamp) => HintEffect(db, log[j].target, hint, stamp, x);
      case _ => EventEffect(db, log[j], x);
    } else {
      assert At(log, j + 1).nodes == db.nodes;
    }
  }

  /** The row's pass_count is what the runs make of its initial count, and they carry its hash. */
  ghost predicate Counted(row: Row, runs: seq<Run>) {
    row.passCount == CountAfter(InitialCount(row.kind, row.proof), runs) && AllCarry(runs, row.verificationHash)
  }

  ghost predicate PassesSince(log: seq<Event>, x: Label, lo: nat, n: nat)
    requires n <= |log|
  {
    x in At(log, n).nodes && Counted(At(log, n).nodes[x], Runs(log, x, lo, n))
  }

  lemma CountVerdict(row: Row, runs: seq<Run>, run: Run)
    requires Counted(row, runs) && Known(run.verdict) && run.verificationHash == row.verificationHash
    ensures Counted(VerdictRow(row, run), runs + [run])
  {
    PushRun(InitialCount(row.kind, row.proof), runs, run);
  }

  lemma CountQuiet(before: Nodes, x: Label, row: Row, runs: seq<Run>)
    requires x in before && Counted(before[x], runs) && Effect(before, false, x, row)
    requires row.verificationHash == before[x].verificationHash
    ensures Counted(row, runs)
  {
  }

  lemma PassStep(log: seq<Event>, x: Label, j: nat, lo: nat)
    requires lo <= j < |log| && PassesSince(log, x, lo, j) && x in At(log, j + 1).nodes && !RestartsAt(log, j, x)
    ensures PassesSince(log, x, lo, j + 1)
  {
    var before, row, runs := At(log, j).nodes, At(log, j + 1).nodes[x], Runs(log, x, lo, j);
    StepEffect(log, j, x);
    match MessageAt(log, j, x)
    case Some(Judged(run)) => CountVerdict(before[x], runs, run);
    case Some(Hinted(stamp, hint)) =>
    case None => CountQuiet(before, x, row, runs);
  }

  /** pass_count is the fold of the verdicts applied since the last restart, all of which
      carried the node's current verification hash. */
  lemma {:induction false} PassHistory(log: seq<Event>, x: Label, n: nat)
    requires n <= |log| && x in At(log, n).nodes
    ensures PassesSince(log, x, SinceRestart(log, x, n), n)
  {
    if n > 0 && !RestartsAt(log, n - 1, x) {
      PassHistory(log, x, n - 1);
      PassStep(log, x, n - 1, SinceRestart(log, x, n));
    } else if n > 0 {
      StepEffect(log, n - 1, x);
    }
  }

  ghost predicate RefusalsSince(log: seq<Event>, x: Label, lo: nat, n: nat)
    requires n <= |log|
  {
    x in At(log, n).nodes && At(log, n).nodes[x].repairCount == Refusals(Runs(log, x, lo, n))
  }

  lemma RepairStep(log: seq<Event>, x: Label, j: nat, lo: nat)
    requires lo <= j < |log| && RefusalsSince(log, x, lo, j) && x in At(log, j + 1).nodes && !MovesAt(log, j, x)
    ensures RefusalsSince(log, x, lo, j + 1)
  {
    StepEffect(log, j, x);
    match MessageAt(log, j, x)
    case Some(Judged(run)) => PushRun(0, Runs(log, x, lo, j), run);
    case Some(Hinted(stamp, hint)) =>
    case None =>
  }

  /** repair_count is the number of refusals applied since the statement hash last moved. */
  lemma {:induction false} RepairHistory(log: seq<Event>, x: Label, n: nat)
    requires n <= |log| && x in At(log, n).nodes
    ensures RefusalsSince(log, x, SinceMove(log, x, n), n)
  {
    if n > 0 && !MovesAt(log, n - 1, x) {
      RepairHistory(log, x, n - 1);
      RepairStep(log, x, n - 1, SinceMove(log, x, n));
    } else if n > 0 {
      StepEffect(log, n - 1, x);
    }
  }

  /** The report of the last run; "" if there is none. */
  function LastReport(runs: seq<Run>): string {
    if runs == [] then "" else runs[|runs| - 1].report
  }

  ghost predicate ReportSince(log: seq<Event>, x: Label, lo: nat, n: nat)
    requires n <= |log|
  {
    x in At(log, n).nodes && At(log, n).nodes[x].report == LastReport(Runs(log, x, lo, n))
  }

  lemma ReportStep(log: seq<Event>, x: Label, j: nat, lo: nat)
    requires lo <= j < |log| && ReportSince(log, x, lo, j) && x in At(log, j + 1).nodes && !ClearsAt(log, j, x)
    ensures ReportSince(log, x, lo, j + 1)
  {
    StepEffect(log, j, x);
    match MessageAt(log, j, x)
    case Some(Judged(run)) =>
    case Some(Hinted(stamp, hint)) =>
    case None =>
  }

  /** verification_report is the report of the last verdict applied since the verification hash last
      moved, whatever the verdict said; empty if there is none. */
  lemma {:induction false} ReportHistory(log: seq<Event>, x: Label, n: nat)
    requires n <= |log| && x in At(log, n).nodes
    ensures ReportSince(log, x, SinceClear(log, x, n), n)
  {
    if n > 0 && !ClearsAt(log, n - 1, x) {
      ReportHistory(log, x, n - 1);
      ReportStep(log, x, n - 1, SinceClear(log, x, n));
    } else if n > 0 {
      StepEffect(log, n - 1, x);
    }
  }
}
