/** The linter's checks of the store (linter/checks.py): the audits of pass_count and
    repair_count, categories C and D, compared with what the projector stored, and the cycle
    check of category B. */
module Audit {
  import opened Backend
  import opened CycleFinder
  import opened TextLaws
  import opened Footprint
  import opened Hashing
  import opened History
  import opened Invariants
  import opened Labels
  import opened Projection
  import opened RowHistory
  import opened Search
  import opened Store
  import opened Texts

  /** The linter's reading of "could have set the statement hash of x", applied or not. */
  predicate NamesChange(event: Event, x: Label) {
    (event.body.NodeAdded? || event.body.NodeRevised? || event.body.BatchCommitted?) && x in Named(event)
  }

  /** The greatest iso_ms among the events that name a change of x. */
  function Boundary(log: seq<Event>, x: Label): Option<nat> {
    if log == [] then None
    else
      var earlier, last := Boundary(log[..|log| - 1], x), log[|log| - 1];
      if NamesChange(last, x) && (earlier.None? || last.id.isoMs > earlier.value) then Some(last.id.isoMs) else earlier
  }

  function Facts(log: seq<Event>): (r: seq<Event>)
    ensures forall i :: 0 <= i < |r| ==> r[i].body.VerifierRun?
  {
    if log == [] then []
    else
      var earlier, last := Facts(log[..|log| - 1]), log[|log| - 1];
      if last.body.VerifierRun? then earlier + [last] else earlier
  }

  predicate Relevant(applied: map<EventId, AppliedEvent>, x: Label, boundary: Option<nat>, event: Event) {
    && event.target == Some(x)
    && (boundary.Some? ==> event.id.isoMs > boundary.value)
    && event.id in applied && applied[event.id].failure.None?
  }

  function FactsOn(applied: map<EventId, AppliedEvent>, x: Label, boundary: Option<nat>,
                   facts: seq<Event>): seq<Event> {
    if facts == [] then []
    else
      var earlier, last := FactsOn(applied, x, boundary, facts[..|facts| - 1]), facts[|facts| - 1];
      if Relevant(applied, x, boundary, last) then earlier + [last] else earlier
  }

  /** The well-formed verdicts on x among the facts. */
  function RunsOn(facts: seq<Event>, x: Label): seq<Run> {
    if facts == [] then []
    else
      var earlier, last := RunsOn(facts[..|facts| - 1], x), facts[|facts| - 1];
      if last.body.VerifierRun? && last.target == Some(x) && last.body.run.Some? then earlier + [last.body.run.value]
      else earlier
  }

  predicate BlankProof(row: Row) {
    RequiresProof(row.kind) && Strip(row.proof) == ""
  }

  /** The audit is the fold of the projector's verdict step from 0, except that a blank proof
      audits to -1 and an unknown last verdict after a refusal audits to 0. */
  function AuditValue(row: Row, matching: seq<Run>): int {
    if BlankProof(row) then -1
    else if matching != [] && !Known(matching[|matching| - 1].verdict) && CountAfter(0, matching) == -1 then 0
    else CountAfter(0, matching)
  }

  function PassAudit(log: seq<Event>, db: Db, x: Label): int
    requires x in db.nodes
  {
    AuditValue(db.nodes[x],
               Carrying(RunsOn(FactsOn(db.applied, x, Boundary(log, x), Facts(log)), x), db.nodes[x].verificationHash))
  }

  function RepairAudit(log: seq<Event>, db: Db, x: Label): nat {
    RefusalsAmong(db.applied, x, Boundary(log, x), Facts(log))
  }

  // ---- the linter's loops ----

  method ReplayVerifierFacts(log: seq<Event>) returns (facts: seq<Event>)
    ensures facts == Facts(log)
  {
    facts := [];
    for i := 0 to |log|
      invariant facts == Facts(log[..i])
    {
      assert log[..i + 1][..i] == log[..i];
      if log[i].body.VerifierRun? {
        facts := facts + [log[i]];
      }
    }
    TakeAll(log);
  }

  method StatementChangingIsoMs(log: seq<Event>, x: Label) returns (mostRecent: Option<nat>)
    ensures mostRecent == Boundary(log, x)
  {
    mostRecent := None;
    for i := 0 to |log|
      invariant mostRecent == Boundary(log[..i], x)
    {
      assert log[..i + 1][..i] == log[..i];
      if NamesChange(log[i], x) && (mostRecent == None || log[i].id.isoMs > mostRecent.value) {
        mostRecent := Some(log[i].id.isoMs);
      }
    }
    TakeAll(log);
  }

  lemma AcceptedTail(runs: seq<Run>, i: nat)
    requires i <= |runs| && Refusals(runs[i..]) == 0
    ensures var n := |Accepted(runs[i..])|;
            CountAfter(0, runs) == var k := CountAfter(0, runs[..i]); if n == 0 then k else if k >= 0 then k + n else n
  {
    assert runs == runs[..i] + runs[i..];
    RunsConcat(0, runs[..i], runs[i..]);
    Quiet(CountAfter(0, runs[..i]), runs[i..]);
  }

  lemma {:induction false} Quiet(k: int, runs: seq<Run>)
    requires Refusals(runs) == 0
    ensures var n := |Accepted(runs)|; CountAfter(k, runs) == if n == 0 then k else if k >= 0 then k + n else n
  {
    if runs != [] {
      Quiet(k, runs[..|runs| - 1]);
    }
  }

  lemma {:induction false} PrependRun(run: Run, runs: seq<Run>)
    ensures Refusals([run] + runs) == Refusals(runs) + if Refused(run.verdict) then 1 else 0
    ensures |Accepted([run] + runs)| == |Accepted(runs)| + if run.verdict == "accepted" then 1 else 0
  {
    if runs == [] {
      assert [run] + runs == [run];
      assert [run][..0] == [];
    } else {
      PrependRun(run, runs[..|runs| - 1]);
      assert ([run] + runs)[..|runs|] == [run] + runs[..|runs| - 1];
    }
  }

  /** _audit_pass_count: the backward scan. */
  method AuditPassCount(row: Row, x: Label, facts: seq<Event>) returns (audit: int)
    ensures audit == AuditValue(row, Carrying(RunsOn(facts, x), row.verificationHash))
  {
    if RequiresProof(row.kind) && Strip(row.proof) == "" {
      return -1;
    }
    var matching := MatchingRuns(row, x, facts);
    if matching == [] {
      return 0;
    }
    var tailAccepted, i := 0, |matching|;
    while i > 0 && !Refused(matching[i - 1].verdict)
      invariant 0 <= i <= |matching| && Refusals(matching[i..]) == 0 && tailAccepted == |Accepted(matching[i..])|
    {
      i := i - 1;
      assert matching[i..] == [matching[i]] + matching[i + 1..];
      PrependRun(matching[i], matching[i + 1..]);
      if matching[i].verdict == "accepted" {
        tailAccepted := tailAccepted + 1;
      }
    }
    AcceptedTail(matching, i);
    var last := matching[|matching| - 1].verdict;
    ScanMeans(matching, i);
    if Refused(last) {
      return -1;
    }
    audit := tailAccepted;
  }

  lemma ScanMeans(m: seq<Run>, i: nat)
    requires m != [] && i <= |m| && Refusals(m[i..]) == 0 && (i > 0 ==> Refused(m[i - 1].verdict))
    ensures Refused(m[|m| - 1].verdict) <==> i == |m|
    ensures CountAfter(0, m[..i]) == if i > 0 then -1 else 0
    ensures Known(m[|m| - 1].verdict) && i < |m| ==> |Accepted(m[i..])| > 0
  {
    if i > 0 {
      assert m[..i][..i - 1] == m[..i - 1];
    }
    if i < |m| {
      assert m[i..][|m| - i - 1] == m[|m| - 1];
    }
  }

  method MatchingRuns(row: Row, x: Label, facts: seq<Event>) returns (matching: seq<Run>)
    ensures matching == Carrying(RunsOn(facts, x), row.verificationHash)
  {
    matching := [];
    for i := 0 to |facts|
      invariant matching == Carrying(RunsOn(facts[..i], x), row.verificationHash)
    {
      var f := facts[i];
      TakeStep(facts, i);
      RunsOnPush(facts[..i], f, x);
      if f.body.VerifierRun? && f.target == Some(x) && f.body.run.Some? {
        CarryingPush(RunsOn(facts[..i], x), f.body.run.value, row.verificationHash);
        if f.body.run.value.verificationHash == row.verificationHash {
          matching := matching + [f.body.run.value];
        }
      }
    }
    TakeAll(facts);
  }

  datatype Drift = Drift(name: Label, stored: int, audit: int)

  /** check_c_pass_count */
  method CheckPassCount(log: seq<Event>, kb: KuzuBackend) returns (out: seq<Drift>)
    ensures forall d :: d in out <==> (d.name in kb.nodes && d.stored == kb.nodes[d.name].passCount
                                       && d.audit == PassAudit(log, kb.State(), d.name) && d.audit != d.stored)
  {
    out := [];
    var facts := ReplayVerifierFacts(log);
    var names := SortedLabels(kb.nodes.Keys);
    for i := 0 to |names|
      invariant forall d :: d in out <==> (d.name in names[..i] && d.stored == kb.nodes[d.name].passCount
                                           && d.audit == PassAudit(log, kb.State(), d.name) && d.audit != d.stored)
    {
      var name := names[i];
      TakeStep(names, i);
      var lastChange := StatementChangingIsoMs(log, name);
      var labelFacts := LabelFacts(kb, name, lastChange, facts);
      var audit := AuditPassCount(kb.nodes[name], name, labelFacts);
      if audit != kb.nodes[name].passCount {
        out := out + [Drift(name, kb.nodes[name].passCount, audit)];
      }
    }
    TakeAll(names);
  }

  method LabelFacts(kb: KuzuBackend, x: Label, lastChange: Option<nat>, facts: seq<Event>) returns (out: seq<Event>)
    ensures out == FactsOn(kb.applied, x, lastChange, facts)
  {
    out := [];
    for i := 0 to |facts|
      invariant out == FactsOn(kb.applied, x, lastChange, facts[..i])
    {
      var f := facts[i];
      assert facts[..i + 1][..i] == facts[..i];
      if f.target != Some(x) || (lastChange.Some? && f.id.isoMs <= lastChange.value) {
        continue;
      }
      if f.id in kb.applied && kb.applied[f.id].failure.None? {
        out := out + [f];
      }
    }
    TakeAll(facts);
  }

  /** check_d_repair_count */
  method CheckRepairCount(log: seq<Event>, kb: KuzuBackend) returns (out: seq<Drift>)
    ensures forall d :: d in out <==> (d.name in kb.nodes && d.stored == kb.nodes[d.name].repairCount
                                       && d.audit == RepairAudit(log, kb.State(), d.name) && d.audit != d.stored)
  {
    out := [];
    var facts := ReplayVerifierFacts(log);
    var names := SortedLabels(kb.nodes.Keys);
    for i := 0 to |names|
      invariant forall d :: d in out <==> (d.name in names[..i] && d.stored == kb.nodes[d.name].repairCount
                                           && d.audit == RepairAudit(log, kb.State(), d.name) && d.audit != d.stored)
    {
      var name := names[i];
      TakeStep(names, i);
      var lastChange := StatementChangingIsoMs(log, name);
      var audit := CountRefusals(kb, name, lastChange, facts);
      if audit != kb.nodes[name].repairCount {
        out := out + [Drift(name, kb.nodes[name].repairCount, audit)];
      }
    }
    TakeAll(names);
  }

  method CountRefusals(kb: KuzuBackend, x: Label, lastChange: Option<nat>, facts: seq<Event>) returns (audit: nat)
    requires forall i :: 0 <= i < |facts| ==> facts[i].body.VerifierRun?
    ensures audit == RefusalsAmong(kb.applied, x, lastChange, facts)
  {
    audit := 0;
    for i := 0 to |facts|
      invariant audit == RefusalsAmong(kb.applied, x, lastChange, facts[..i])
    {
      var f := facts[i];
      RefusalsPush(kb.applied, x, lastChange, facts, i);
      if f.target != Some(x) || f.body.run.None? || !Refused(f.body.run.value.verdict) {
        continue;
      }
      if lastChange.Some? && f.id.isoMs <= lastChange.value {
        continue;
      }
      if f.id in kb.applied && kb.applied[f.id].failure.None? {
        audit := audit + 1;
      }
    }
    TakeAll(facts);
  }

  lemma RunsOnPush(facts: seq<Event>, f: Event, x: Label)
    ensures RunsOn(facts + [f], x) ==
            if f.body.VerifierRun? && f.target == Some(x) && f.body.run.Some? then RunsOn(facts, x) + [f.body.run.value]
            else RunsOn(facts, x)
  {
    assert (facts + [f])[..|facts|] == facts;
  }

  function RefusalsAmong(applied: map<EventId, AppliedEvent>, x: Label, boundary: Option<nat>, facts: seq<Event>): nat {
    Refusals(RunsOn(FactsOn(applied, x, boundary, facts), x))
  }

  lemma RefusalsPush(applied: map<EventId, AppliedEvent>, x: Label, boundary: Option<nat>, facts: seq<Event>, i: nat)
    requires i < |facts| && facts[i].body.VerifierRun?
    ensures var f := facts[i];
            RefusalsAmong(applied, x, boundary, facts[..i + 1]) ==
            RefusalsAmong(applied, x, boundary, facts[..i])
            + if Relevant(applied, x, boundary, f) && f.body.run.Some? && Refused(f.body.run.value.verdict) then 1
            else 0
  {
    var f, earlier := facts[i], FactsOn(applied, x, boundary, facts[..i]);
    TakeStep(facts, i);
    FactsOnPush(applied, x, boundary, facts[..i], f);
    RunsOnPush(earlier, f, x);
    if f.body.run.Some? {
      PushRun(0, RunsOn(earlier, x), f.body.run.value);
    }
  }

  lemma FactsOnPush(applied: map<EventId, AppliedEvent>, x: Label, boundary: Option<nat>, facts: seq<Event>, f: Event)
    ensures FactsOn(applied, x, boundary, facts + [f]) ==
            if Relevant(applied, x, boundary, f) then FactsOn(applied, x, boundary, facts) + [f]
            else FactsOn(applied, x, boundary, facts)
  {
    assert (facts + [f])[..|facts|] == facts;
  }

  // ---- the audits against the projector ----

  /** The first position below n whose iso_ms lies behind the boundary. */
  ghost function Behind(log: seq<Event>, boundary: Option<nat>, n: nat): (c: nat)
    requires n <= |log|
    ensures c <= n
  {
    if boundary.None? then 0
    else if n == 0 || log[n - 1].id.isoMs <= boundary.value then n
    else Behind(log, boundary, n - 1)
  }

  /** Where the linter starts to count verdicts on x: the first position in a later millisecond
      than every event that names a change of x. */
  ghost function SinceBoundary(log: seq<Event>, x: Label): (c: nat)
    ensures c <= |log|
  {
    Behind(log, Boundary(log, x), |log|)
  }

  lemma {:induction false} BehindMeans(log: seq<Event>, boundary: Option<nat>, n: nat, j: nat)
    requires InKeyOrder(log) && j < n <= |log|
    ensures (boundary.Some? ==> log[j].id.isoMs > boundary.value) <==> Behind(log, boundary, n) <= j
  {
    if boundary.Some? {
      if log[n - 1].id.isoMs <= boundary.value {
        assert j < n - 1 ==> Before(log[j].id, log[n - 1].id);
      } else if j < n - 1 {
        BehindMeans(log, boundary, n - 1, j);
      }
    }
  }

  lemma {:induction false} IdsBelow(log: seq<Event>, n: nat, id: EventId)
    requires n <= |log| && id in At(log, n).applied
    ensures exists j :: 0 <= j < n && log[j].id == id
  {
    if n > 0 {
      AppliedStep(log, n - 1, id);
      if id in At(log, n - 1).applied {
        IdsBelow(log, n - 1, id);
      }
    }
  }

  /** One event writes its own AppliedEvent row and no other. */
  lemma AppliedStep(log: seq<Event>, n: nat, id: EventId)
    requires n < |log|
    ensures id != log[n].id ==> (id in At(log, n + 1).applied <==> id in At(log, n).applied)
    ensures id in At(log, n).applied ==>
              id in At(log, n + 1).applied && At(log, n + 1).applied[id] == At(log, n).applied[id]
  {
    AtStep(log, n);
  }

  ghost predicate AppliedIn(db: Db, id: EventId) {
    id in db.applied && db.applied[id].failure.None?
  }

  /** In key order the AppliedEvent row of an event says whether it was applied. */
  lemma {:induction false} RowsSayApplied(log: seq<Event>, n: nat, j: nat)
    requires InKeyOrder(log) && j < n <= |log|
    ensures AcceptedAt(log, j) <==> AppliedIn(At(log, n), log[j].id)
  {
    if j < n - 1 {
      RowsSayApplied(log, n - 1, j);
      AppliedStep(log, n - 1, log[j].id);
    } else {
      if log[j].id in At(log, j).applied {
        IdsBelow(log, j, log[j].id);
      }
      OwnRow(log, j);
    }
  }

  lemma OwnRow(log: seq<Event>, j: nat)
    requires j < |log| && log[j].id !in At(log, j).applied
    ensures AcceptedAt(log, j) <==> AppliedIn(At(log, j + 1), log[j].id)
  {
    AtStep(log, j);
  }

  lemma AcceptedVerdictHasRun(log: seq<Event>, j: nat)
    requires AcceptedAt(log, j) && log[j].body.VerifierRun?
    ensures log[j].body.run.Some?
  {
  }

  lemma RelevantIsVerdict(log: seq<Event>, x: Label, j: nat)
    requires InKeyOrder(log) && j < |log| && log[j].body.VerifierRun?
    ensures Relevant(Replay(log).applied, x, Boundary(log, x), log[j])
       <==> VerdictAt(log, j, x) && SinceBoundary(log, x) <= j
  {
    TakeAll(log);
    RowsSayApplied(log, |log|, j);
    BehindMeans(log, Boundary(log, x), |log|, j);
    if AcceptedAt(log, j) {
      AcceptedVerdictHasRun(log, j);
    }
  }

  /** What the linter collects for x are the applied verdicts from a later millisecond than the
      last event naming a change of x. */
  lemma {:induction false} FactsAreRuns(log: seq<Event>, x: Label, n: nat)
    requires InKeyOrder(log) && n <= |log|
    ensures RunsOn(FactsOn(Replay(log).applied, x, Boundary(log, x), Facts(log[..n])), x)
         == Runs(log, x, SinceBoundary(log, x), n)
  {
    if n > 0 {
      var j := n - 1;
      FactsAreRuns(log, x, j);
      assert log[..n][..j] == log[..j];
      if log[j].body.VerifierRun? {
        var applied, boundary := Replay(log).applied, Boundary(log, x);
        RelevantIsVerdict(log, x, j);
        FactsOnPush(applied, x, boundary, Facts(log[..j]), log[j]);
        RunsOnPush(FactsOn(applied, x, boundary, Facts(log[..j])), log[j], x);
      }
    }
  }

  lemma {:induction false} CountZero(runs: seq<Run>)
    requires forall i :: 0 <= i < |runs| ==> Known(runs[i].verdict)
    ensures CountAfter(0, runs) >= -1
    ensures CountAfter(0, runs) == 0 <==> runs == []
    ensures CountAfter(0, runs) == -1 <==> runs != [] && Refused(runs[|runs| - 1].verdict)
  {
    if runs != [] {
      CountZero(runs[..|runs| - 1]);
    }
  }

  /** When two starting counts lead to the same count. */
  lemma {:induction false} CountsMeet(k: int, runs: seq<Run>)
    requires k >= -1 && forall i :: 0 <= i < |runs| ==> Known(runs[i].verdict)
    ensures CountAfter(k, runs) == CountAfter(0, runs) <==> k == 0 || Refusals(runs) > 0 || (k == -1 && runs != [])
    ensures CountAfter(k, runs) >= -1
    ensures Refusals(runs) == 0 ==> CountAfter(k, runs) >= k
    ensures Refusals(runs) == 0 && k >= 0 ==> CountAfter(k, runs) == k + |runs|
    decreases runs
  {
    if runs != [] {
      CountsMeet(k, runs[..|runs| - 1]);
      CountsMeet(0, runs[..|runs| - 1]);
    }
  }

  lemma {:induction false} CarryingKnown(runs: seq<Run>, vh: Hash)
    requires forall i :: 0 <= i < |runs| ==> Known(runs[i].verdict)
    ensures forall i :: 0 <= i < |Carrying(runs, vh)| ==> Known(Carrying(runs, vh)[i].verdict)
  {
    if runs != [] {
      CarryingKnown(runs[..|runs| - 1], vh);
    }
  }

  lemma {:induction false} AppliedKnown(log: seq<Event>, x: Label, lo: nat, hi: nat)
    requires hi <= |log|
    ensures forall i :: 0 <= i < |Runs(log, x, lo, hi)| ==> Known(Runs(log, x, lo, hi)[i].verdict)
  {
    if lo < hi {
      AppliedKnown(log, x, lo, hi - 1);
      assert VerdictAt(log, hi - 1, x) ==> Known(log[hi - 1].body.run.value.verdict);
    }
  }

  /** The verdicts that only one side counts: those between the last restart of pass_count and
      the start of the linter's count, if they carry the current verification hash. */
  ghost function Disputed(log: seq<Event>, x: Label): seq<Run>
    requires x in Replay(log).nodes
  {
    var c, r := SinceBoundary(log, x), SinceRestart(log, x, |log|);
    Carrying(Runs(log, x, if c <= r then c else r, if c <= r then r else c), Replay(log).nodes[x].verificationHash)
  }

  /** The verdicts that both sides count. */
  ghost function Agreed(log: seq<Event>, x: Label): seq<Run> {
    var c, r := SinceBoundary(log, x), SinceRestart(log, x, |log|);
    Runs(log, x, if c <= r then r else c, |log|)
  }

  ghost predicate AuditCounts(log: seq<Event>, x: Label, stored: seq<Run>, audited: seq<Run>)
    requires x in Replay(log).nodes
  {
    var row := Replay(log).nodes[x];
    && row.passCount == CountAfter(InitialCount(row.kind, row.proof), stored)
    && (!BlankProof(row) ==> PassAudit(log, Replay(log), x) == CountAfter(0, audited))
  }

  lemma CountedRuns(log: seq<Event>, x: Label)
    requires InKeyOrder(log) && x in Replay(log).nodes
    ensures var c, r := SinceBoundary(log, x), SinceRestart(log, x, |log|);
            var disputed, agreed := Disputed(log, x), Agreed(log, x);
            AuditCounts(log, x, if c <= r then agreed else disputed + agreed,
                        if c <= r then disputed + agreed else agreed)
  {
    var n := |log|;
    var c, r := SinceBoundary(log, x), SinceRestart(log, x, n);
    var vh := Replay(log).nodes[x].verificationHash;
    TakeAll(log);
    PassHistory(log, x, n);
    FactsAreRuns(log, x, n);
    if c <= r {
      RunsSplit(log, x, c, r, n);
      CarryingConcat(Runs(log, x, c, r), Runs(log, x, r, n), vh);
      CarryingAll(Runs(log, x, r, n), vh);
    } else {
      RunsSplit(log, x, r, c, n);
      SplitCarries(Runs(log, x, r, c), Runs(log, x, c, n), vh);
    }
    AppliedKnown(log, x, c, n);
    CarryingKnown(Runs(log, x, c, n), vh);
  }

  lemma SplitCarries(a: seq<Run>, b: seq<Run>, vh: Hash)
    requires AllCarry(a + b, vh)
    ensures Carrying(a, vh) == a && Carrying(b, vh) == b
  {
    forall i | 0 <= i < |a| ensures a[i].verificationHash == vh {
      assert (a + b)[i] == a[i];
    }
    forall i | 0 <= i < |b| ensures b[i].verificationHash == vh {
      assert (a + b)[|a| + i] == b[i];
    }
    CarryingAll(a, vh);
    CarryingAll(b, vh);
  }

  /** Check C is silent on x exactly when no disputed verdict matters: there is none, or an agreed
      refusal came later, or the last of them was a refusal and an agreed verdict came later. */
  lemma PassAuditExact(log: seq<Event>, x: Label)
    requires InKeyOrder(log) && x in Replay(log).nodes && !BlankProof(Replay(log).nodes[x])
    ensures var disputed, agreed := Disputed(log, x), Agreed(log, x);
            PassAudit(log, Replay(log), x) == Replay(log).nodes[x].passCount
            <==> || disputed == []
                 || Refusals(agreed) > 0
                 || (agreed != [] && Refused(disputed[|disputed| - 1].verdict))
  {
    var c, r := SinceBoundary(log, x), SinceRestart(log, x, |log|);
    var disputed, agreed := Disputed(log, x), Agreed(log, x);
    CountedRuns(log, x);
    AppliedKnown(log, x, if c <= r then c else r, if c <= r then r else c);
    CarryingKnown(Runs(log, x, if c <= r then c else r, if c <= r then r else c),
                  Replay(log).nodes[x].verificationHash);
    AppliedKnown(log, x, if c <= r then r else c, |log|);
    RunsConcat(0, disputed, agreed);
    CountZero(disputed);
    CountsMeet(CountAfter(0, disputed), agreed);
  }

  /** On a blank proof check C is silent exactly when the projector's last word was no. */
  lemma BlankAuditExact(log: seq<Event>, x: Label)
    requires x in Replay(log).nodes && BlankProof(Replay(log).nodes[x])
    ensures var row, runs := Replay(log).nodes[x], Runs(log, x, SinceRestart(log, x, |log|), |log|);
            PassAudit(log, Replay(log), x) == row.passCount
            <==> if runs == [] then row.proof == "" else Refused(runs[|runs| - 1].verdict)
  {
    TakeAll(log);
    PassHistory(log, x, |log|);
  }

  /** One past the last position below n that names a change of x; 0 if there is none. */
  ghost function SinceChange(log: seq<Event>, x: Label, n: nat): (c: nat)
    requires n <= |log|
    ensures c <= n
  {
    if n == 0 || NamesChange(log[n - 1], x) then n else SinceChange(log, x, n - 1)
  }

  /** Every event that the linter takes for a change of x was applied and wrote x, nothing has
      restarted the count of x since the last of them, and no verdict on x was applied after it
      within its own millisecond. */
  ghost predicate DirectChangesOnly(log: seq<Event>, x: Label) {
    && (forall j :: 0 <= j < |log| && NamesChange(log[j], x) ==> AcceptedAt(log, j) && Sets(log[j], x))
    && (forall j :: SinceChange(log, x, |log|) <= j < |log| ==> !RestartsAt(log, j, x))
    && (forall j :: SinceChange(log, x, |log|) <= j < SinceBoundary(log, x) ==> !VerdictAt(log, j, x))
  }

  lemma {:induction false} BoundaryAbove(log: seq<Event>, x: Label, j: nat)
    requires j < |log| && NamesChange(log[j], x)
    ensures Boundary(log, x).Some? && log[j].id.isoMs <= Boundary(log, x).value
  {
    if j < |log| - 1 {
      BoundaryAbove(log[..|log| - 1], x, j);
    }
  }

  lemma {:induction false} SinceChangeNames(log: seq<Event>, x: Label, n: nat)
    requires n <= |log|
    ensures var c := SinceChange(log, x, n); c > 0 ==> NamesChange(log[c - 1], x)
    ensures forall j :: SinceChange(log, x, n) <= j < n ==> !NamesChange(log[j], x)
  {
    if n > 0 && !NamesChange(log[n - 1], x) {
      SinceChangeNames(log, x, n - 1);
    }
  }

  /** The linter starts to count no earlier than after the last event that names a change. */
  lemma ChangeBeforeBoundary(log: seq<Event>, x: Label)
    requires InKeyOrder(log)
    ensures SinceChange(log, x, |log|) <= SinceBoundary(log, x)
  {
    var c := SinceChange(log, x, |log|);
    SinceChangeNames(log, x, |log|);
    if c > 0 {
      BoundaryAbove(log, x, c - 1);
      BehindMeans(log, Boundary(log, x), |log|, c - 1);
    }
  }

  lemma {:induction false} NoVerdicts(log: seq<Event>, x: Label, lo: nat, hi: nat)
    requires hi <= |log| && forall j :: lo <= j < hi ==> !VerdictAt(log, j, x)
    ensures Runs(log, x, lo, hi) == []
  {
    if lo < hi {
      NoVerdicts(log, x, lo, hi - 1);
    }
  }

  lemma {:induction false} ChangeIsRestart(log: seq<Event>, x: Label, n: nat)
    requires n <= |log| && DirectChangesOnly(log, x) && x in At(log, n).nodes
    requires forall j :: SinceChange(log, x, n) <= j < n ==> !RestartsAt(log, j, x)
    ensures SinceRestart(log, x, n) == SinceChange(log, x, n)
  {
    if n > 0 {
      if NamesChange(log[n - 1], x) {
        AtStep(log, n - 1);
      } else {
        assert !RestartsAt(log, n - 1, x);
        ChangeIsRestart(log, x, n - 1);
      }
    }
  }

  /** With only direct changes check C never raises a false alarm. */
  lemma NoFalseAlarm(log: seq<Event>, x: Label)
    requires InKeyOrder(log) && x in Replay(log).nodes && !BlankProof(Replay(log).nodes[x]) && DirectChangesOnly(log, x)
    ensures PassAudit(log, Replay(log), x) == Replay(log).nodes[x].passCount
  {
    TakeAll(log);
    ChangeIsRestart(log, x, |log|);
    ChangeBeforeBoundary(log, x);
    NoVerdicts(log, x, SinceChange(log, x, |log|), SinceBoundary(log, x));
    PassAuditExact(log, x);
  }

  /** Check D is silent on x exactly when no refusal was applied between the start of the linter's
      count and the last move of the statement hash of x, whichever came first. */
  lemma RepairAuditExact(log: seq<Event>, x: Label)
    requires InKeyOrder(log) && x in Replay(log).nodes
    ensures var c, s := SinceBoundary(log, x), SinceMove(log, x, |log|);
            RepairAudit(log, Replay(log), x) == Replay(log).nodes[x].repairCount
            <==> Refusals(Runs(log, x, if c <= s then c else s, if c <= s then s else c)) == 0
  {
    var n := |log|;
    var c, s := SinceBoundary(log, x), SinceMove(log, x, n);
    TakeAll(log);
    RepairHistory(log, x, n);
    FactsAreRuns(log, x, n);
    if c <= s {
      RunsSplit(log, x, c, s, n);
      RunsConcat(0, Runs(log, x, c, s), Runs(log, x, s, n));
    } else {
      RunsSplit(log, x, s, c, n);
      RunsConcat(0, Runs(log, x, s, c), Runs(log, x, c, n));
    }
  }

  // ---- the audits in terms of the events themselves ----

  /** The event gives or would give x a text: its target is x, or one of its batch entries. */
  ghost predicate TextEvent(event: Event, x: Label) {
    match event.body
    case NodeAdded(_) => event.target == Some(x)
    case NodeRevised(_) => event.target == Some(x)
    case BatchCommitted(_, entries) =>
      event.target == Some(x) || exists i :: 0 <= i < |entries| && entries[i].name == Some(x)
    case _ => false
  }

  lemma TextNames(event: Event, x: Label)
    ensures TextEvent(event, x) <==> NamesChange(event, x)
  {
    if event.body.BatchCommitted? {
      var entries := event.body.entries;
      if i :| 0 <= i < |entries| && entries[i].name == Some(x) {
        assert x in EntryNames(entries);
      }
      if x in EntryNames(entries) {
        var i :| 0 <= i < |entries| && entries[i].name.Some? && entries[i].name.value == x;
        assert entries[i].name == Some(x);
      }
    }
  }

  /** A draft for x comes with an event that names x. */
  lemma DraftNames(event: Event, x: Label)
    requires DraftFor(event, x).Some? || Sets(event, x)
    ensures TextEvent(event, x)
  {
    if event.body.BatchCommitted? {
      var entries := event.body.entries;
      if DraftFor(event, x).Some? {
        DraftEntry(entries, x);
      } else {
        var i :| 0 <= i < |entries| && entries[i].name.Some? && entries[i].name.value == x;
        assert entries[i].name == Some(x);
      }
    }
  }

  lemma {:induction false} DraftEntry(entries: seq<BatchEntry>, x: Label)
    requires EntryDraft(entries, x).Some?
    ensures exists i :: 0 <= i < |entries| && entries[i].name == Some(x)
  {
    if entries[0].name != Some(x) {
      DraftEntry(entries[1..], x);
      var i :| 0 <= i < |entries[1..]| && entries[1..][i].name == Some(x);
      assert entries[i + 1].name == Some(x);
    }
  }

  /** The linter never counts a verdict from before an event that really wrote x. */
  lemma WritesBehindBoundary(log: seq<Event>, x: Label, j: nat)
    requires InKeyOrder(log) && (WroteAt(log, j, x) || (AcceptedAt(log, j) && Sets(log[j], x)))
    ensures j < SinceBoundary(log, x)
  {
    DraftNames(log[j], x);
    TextNames(log[j], x);
    BoundaryAbove(log, x, j);
    BehindMeans(log, Boundary(log, x), |log|, j);
  }

  /** The event at p is the last one with a text for x. */
  ghost predicate LastText(log: seq<Event>, x: Label, p: nat) {
    p < |log| && TextEvent(log[p], x) && forall j :: p < j < |log| ==> !TextEvent(log[j], x)
  }

  lemma {:induction false} BoundaryOfLast(log: seq<Event>, x: Label, p: nat)
    requires InKeyOrder(log) && LastText(log, x, p)
    ensures Boundary(log, x) == Some(log[p].id.isoMs)
  {
    var front, last := log[..|log| - 1], log[|log| - 1];
    TextNames(last, x);
    if p < |log| - 1 {
      BoundaryOfLast(front, x, p);
    } else {
      BoundaryBelow(front, x, last.id.isoMs);
    }
  }

  lemma {:induction false} BoundaryBelow(log: seq<Event>, x: Label, bound: nat)
    requires forall j :: 0 <= j < |log| ==> log[j].id.isoMs <= bound
    ensures Boundary(log, x).Some? ==> Boundary(log, x).value <= bound
  {
    if log != [] {
      BoundaryBelow(log[..|log| - 1], x, bound);
    }
  }

  /** The linter counts exactly what came in a later millisecond than the last text for x. */
  lemma CountsAfterText(log: seq<Event>, x: Label, p: nat, j: nat)
    requires InKeyOrder(log) && LastText(log, x, p) && j < |log|
    ensures SinceBoundary(log, x) <= j <==> log[j].id.isoMs > log[p].id.isoMs
    ensures p < SinceBoundary(log, x)
  {
    BoundaryOfLast(log, x, p);
    BehindMeans(log, Boundary(log, x), |log|, j);
    BehindMeans(log, Boundary(log, x), |log|, p);
  }

  /** The verdicts on x that one clock tick separates from none: applied after position p, in its
      millisecond. */
  ghost predicate InTick(log: seq<Event>, x: Label, p: nat, j: nat) {
    p < j < |log| && VerdictAt(log, j, x) && log[j].id.isoMs == log[p].id.isoMs
  }

  lemma TickOnly(log: seq<Event>, x: Label, p: nat, j: nat)
    requires InKeyOrder(log) && LastText(log, x, p) && p < j < SinceBoundary(log, x) && VerdictAt(log, j, x)
    ensures InTick(log, x, p, j)
  {
    CountsAfterText(log, x, p, j);
    assert Before(log[p].id, log[j].id);
  }

  /** Check D is silent when the last event with a text for x is also the last that created x or
      moved its statement hash, and no refusal followed within the same millisecond. */
  lemma RepairAuditSilent(log: seq<Event>, db: Db, x: Label, p: nat)
    requires InKeyOrder(log) && db == Replay(log) && x in db.nodes && LastText(log, x, p)
    requires SinceMove(log, x, |log|) == p + 1 && forall j: nat :: !RefusalInTick(log, x, p, j)
    ensures RepairAudit(log, db, x) == db.nodes[x].repairCount
  {
    QuietTick(log, x, p);
    NoRefusalsSilent(log, x);
  }

  lemma NoRefusalsSilent(log: seq<Event>, x: Label)
    requires InKeyOrder(log) && x in Replay(log).nodes && SinceMove(log, x, |log|) <= SinceBoundary(log, x)
    requires Refusals(Runs(log, x, SinceMove(log, x, |log|), SinceBoundary(log, x))) == 0
    ensures RepairAudit(log, Replay(log), x) == Replay(log).nodes[x].repairCount
  {
    RepairAuditExact(log, x);
  }

  ghost predicate RefusalInTick(log: seq<Event>, x: Label, p: nat, j: nat) {
    InTick(log, x, p, j) && log[j].body.run.value.verdict != "accepted"
  }

  lemma QuietTick(log: seq<Event>, x: Label, p: nat)
    requires InKeyOrder(log) && LastText(log, x, p) && forall j: nat :: !RefusalInTick(log, x, p, j)
    ensures p + 1 <= SinceBoundary(log, x) && Refusals(Runs(log, x, p + 1, SinceBoundary(log, x))) == 0
  {
    var c := SinceBoundary(log, x);
    CountsAfterText(log, x, p, p);
    forall j | p + 1 <= j < c && VerdictAt(log, j, x) ensures log[j].body.run.value.verdict == "accepted" {
      TickOnly(log, x, p, j);
      assert !RefusalInTick(log, x, p, j);
    }
    NoRefusals(log, x, p + 1, c);
  }

  lemma {:induction false} NoRefusals(log: seq<Event>, x: Label, lo: nat, hi: nat)
    requires hi <= |log|
    requires forall j :: lo <= j < hi && VerdictAt(log, j, x) ==> log[j].body.run.value.verdict == "accepted"
    ensures Refusals(Runs(log, x, lo, hi)) == 0
  {
    if lo < hi {
      NoRefusals(log, x, lo, hi - 1);
      if VerdictAt(log, hi - 1, x) {
        PushRun(0, Runs(log, x, lo, hi - 1), log[hi - 1].body.run.value);
      }
    }
  }

  /** Check C is silent on a proof that is not blank when the last event with a text for x is also
      the last that restarted its count, and no verdict followed within the same millisecond. */
  lemma PassAuditSilent(log: seq<Event>, db: Db, x: Label, p: nat)
    requires InKeyOrder(log) && db == Replay(log) && x in db.nodes && LastText(log, x, p)
    requires db.nodes[x].kind in {Definition, ExternalTheorem} || exists c :: c in db.nodes[x].proof && !IsSpace(c)
    requires SinceRestart(log, x, |log|) == p + 1 && forall j: nat :: !InTick(log, x, p, j)
    ensures PassAudit(log, db, x) == db.nodes[x].passCount
  {
    NotBlank(db.nodes[x]);
    EmptyTick(log, x, p);
    UndisputedSilent(log, x);
  }

  lemma UndisputedSilent(log: seq<Event>, x: Label)
    requires InKeyOrder(log) && x in Replay(log).nodes && !BlankProof(Replay(log).nodes[x])
    requires SinceRestart(log, x, |log|) <= SinceBoundary(log, x)
    requires Runs(log, x, SinceRestart(log, x, |log|), SinceBoundary(log, x)) == []
    ensures PassAudit(log, Replay(log), x) == Replay(log).nodes[x].passCount
  {
    PassAuditExact(log, x);
  }

  lemma EmptyTick(log: seq<Event>, x: Label, p: nat)
    requires InKeyOrder(log) && LastText(log, x, p) && forall j: nat :: !InTick(log, x, p, j)
    ensures p + 1 <= SinceBoundary(log, x) && Runs(log, x, p + 1, SinceBoundary(log, x)) == []
  {
    var c := SinceBoundary(log, x);
    CountsAfterText(log, x, p, p);
    forall j | p + 1 <= j < c ensures !VerdictAt(log, j, x) {
      if VerdictAt(log, j, x) {
        TickOnly(log, x, p, j);
      }
    }
    NoVerdicts(log, x, p + 1, c);
  }

  lemma NotBlank(row: Row)
    requires row.kind in {Definition, ExternalTheorem} || exists c :: c in row.proof && !IsSpace(c)
    ensures !BlankProof(row)
  {
    StripBlank(row.proof);
  }

  // ---- category B ----

  /** The adjacency check_b_kb_structural reads out of the store. */
  function StoredDeps(db: Db): Deps {
    map x | x in db.nodes :: SortedLabels(DepsOf(db.edges, x))
  }

  lemma StoredEdges(db: Db)
    requires Valid(db)
    ensures KnownEdges(StoredDeps(db)) == db.edges
  {
    forall e: (Label, Label) ensures e in KnownEdges(StoredDeps(db)) <==> e in db.edges {
      assert e in db.edges <==> e.1 in DepsOf(db.edges, e.0);
    }
  }

  /** Category B's cycle check: it finds nothing in any state the projector can reach. */
  method CheckCycle(kb: KuzuBackend) returns (cycle: Option<seq<Label>>)
    requires Valid(kb.State())
    ensures cycle == None
  {
    StoredEdges(kb.State());
    cycle := FindCycle(map x | x in kb.nodes :: SortedLabels(DepsOf(kb.edges, x)), SortedLabels(kb.nodes.Keys));
  }
}
