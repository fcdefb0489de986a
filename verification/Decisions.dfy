/** When the projector accepts an event and why it refuses one, in terms of the event's own fields
    and of the rows and edges there are (librarian/projector.py). */
module Decisions {
  import opened Coherence
  import opened Footprint
  import opened Graphs
  import opened Hashing
  import opened History
  import opened Invariants
  import opened Labels
  import opened MerkleCascade
  import opened Projection
  import opened RowHistory
  import opened Search
  import opened Store
  import opened TextLaws
  import opened Texts

  /** The node kinds with the prefixes of their labels. */
  predicate KindHasPrefix(kind: string, prefix: string) {
    || (kind == "definition" && prefix == "def")
    || (kind == "external_theorem" && prefix == "ext")
    || (kind == "lemma" && prefix == "lem")
    || (kind == "theorem" && prefix == "thm")
    || (kind == "proposition" && prefix == "prop")
  }

  predicate KnownKind(kind: string) {
    kind == "definition" || kind == "external_theorem" || kind == "lemma" || kind == "theorem" || kind == "proposition"
  }

  predicate Provable(kind: string) {
    kind == "lemma" || kind == "theorem" || kind == "proposition"
  }

  /** Lower-case letters, digits and underscores. */
  predicate SlugText(slug: string) {
    slug != "" && forall c :: c in slug ==> 'a' <= c <= 'z' || '0' <= c <= '9' || c == '_'
  }

  /** prefix, a colon and a slug, perhaps with one line break behind it. */
  ghost predicate Spells(name: Label, prefix: string) {
    exists slug :: SlugText(slug) && (name == prefix + ":" + slug || name == prefix + ":" + slug + "\n")
  }

  ghost predicate LabelOf(name: Label, kind: string) {
    && (exists prefix :: KindHasPrefix(kind, prefix) && Spells(name, prefix))
    && name !in PLACEHOLDER_LABELS
  }

  /** The text can be written under the label. */
  ghost predicate Writable(name: Label, draft: Draft) {
    && LabelOf(name, draft.kind) && draft.statement != ""
    && (draft.proof != "" ==> Provable(draft.kind))
    && (draft.kind == "external_theorem" ==> exists c :: c in draft.sourceNote && !IsSpace(c))
  }

  // ---- labels and contents ----

  lemma ColonAfter(prefix: string, rest: string)
    requires ':' !in prefix
    ensures var name := prefix + ":" + rest;
            IndexFrom(name, ':', 0) == |prefix| && name[..|prefix|] == prefix && name[|prefix| + 1..] == rest
  {
    var name := prefix + ":" + rest;
    assert name[0..|prefix|] == prefix;
    IndexAfter(name, ':', 0, |prefix|);
  }

  lemma SlugExact(rest: string)
    ensures SlugFits(rest)
       <==> SlugText(rest) || (rest != "" && rest[|rest| - 1] == '\n' && SlugText(rest[..|rest| - 1]))
  {
    if rest != "" && rest[|rest| - 1] == '\n' {
      var body := rest[..|rest| - 1];
      assert rest[|rest| - 1] in rest;
      assert !SlugText(rest);
      SlugTextMeans(body);
    } else {
      SlugTextMeans(rest);
    }
  }

  lemma SlugTextMeans(body: string)
    ensures SlugText(body) <==> body != "" && forall c :: c in body ==> SlugChar(c)
  {
    if forall c :: c in body ==> SlugChar(c) {
      forall c | c in body ensures 'a' <= c <= 'z' || '0' <= c <= '9' || c == '_' {
        assert SlugChar(c);
      }
    }
  }

  lemma SlugBreak(slug: string)
    ensures var rest := slug + "\n"; rest != "" && rest[|rest| - 1] == '\n' && rest[..|rest| - 1] == slug
  {
  }

  /** What stands before the first colon is the prefix. */
  lemma PrefixExact(name: Label, prefix: string)
    requires ':' !in prefix
    ensures Spells(name, prefix) <==>
            var colon := IndexFrom(name, ':', 0);
            colon < |name| && name[..colon] == prefix && SlugFits(name[colon + 1..])
  {
    if Spells(name, prefix) {
      SpelledFits(name, prefix);
    }
    var colon := IndexFrom(name, ':', 0);
    if colon < |name| && name[..colon] == prefix && SlugFits(name[colon + 1..]) {
      AtColon(name, colon);
      FitsSpells(name, prefix, name[colon + 1..]);
    }
  }

  lemma AtColon(name: string, colon: nat)
    requires colon < |name| && name[colon] == ':'
    ensures name == name[..colon] + ":" + name[colon + 1..]
  {
  }

  lemma SpelledFits(name: Label, prefix: string)
    requires ':' !in prefix && Spells(name, prefix)
    ensures var colon := IndexFrom(name, ':', 0);
            colon < |name| && name[..colon] == prefix && SlugFits(name[colon + 1..])
  {
    var slug :| SlugText(slug) && (name == prefix + ":" + slug || name == prefix + ":" + slug + "\n");
    var rest := if name == prefix + ":" + slug then slug else slug + "\n";
    Regrouped(prefix, slug);
    assert name == prefix + ":" + rest;
    ColonAfter(prefix, rest);
    SlugBreak(slug);
    SlugExact(rest);
  }

  lemma Regrouped(prefix: string, slug: string)
    ensures prefix + ":" + slug + "\n" == prefix + ":" + (slug + "\n")
  {
  }

  lemma FitsSpells(name: Label, prefix: string, rest: string)
    requires name == prefix + ":" + rest && SlugFits(rest)
    ensures Spells(name, prefix)
  {
    SlugExact(rest);
    if SlugText(rest) {
    } else {
      var slug := rest[..|rest| - 1];
      assert rest == slug + "\n";
      Regrouped(prefix, slug);
      assert SlugText(slug);
    }
  }

  lemma KindExact(kind: string)
    ensures ParseKind(kind).Some? <==> KnownKind(kind)
    ensures forall prefix :: KindHasPrefix(kind, prefix)
                             <==> ParseKind(kind).Some? && KindPrefix(ParseKind(kind).value) == prefix
    ensures ParseKind(kind).Some? ==> (RequiresProof(ParseKind(kind).value) <==> Provable(kind))
    ensures ParseKind(kind).Some? ==> ':' !in KindPrefix(ParseKind(kind).value)
  {
  }

  lemma LabelExact(name: Label, kind: string)
    ensures (ParseKind(kind).Some? && LabelFits(name, ParseKind(kind).value)) <==> LabelOf(name, kind)
  {
    KindExact(kind);
    if ParseKind(kind).Some? {
      PrefixExact(name, KindPrefix(ParseKind(kind).value));
    }
  }

  lemma ContentExact(name: Label, draft: Draft)
    ensures (ParseKind(draft.kind).Some? && ContentFits(name, ParseKind(draft.kind).value, draft))
       <==> Writable(name, draft)
  {
    LabelExact(name, draft.kind);
    KindExact(draft.kind);
    StripBlank(draft.sourceNote);
  }

  lemma NoEdgeInto(g: Graph<Label>, d: Label, name: Label)
    requires d != name && forall e :: e in g ==> e.1 != name
    ensures !Reaches(g, d, name)
  {
    forall w ensures !WalkBetween(g, w, d, name) {
      if |w| >= 2 {
        var e := (w[|w| - 2], w[|w| - 2 + 1]);
        assert e in g ==> e.1 != name;
      }
    }
  }

  lemma NewSource(db: Db, name: Label, deps: set<Label>)
    requires Valid(db) && name !in db.nodes && deps <= db.nodes.Keys
    ensures Rewire(db.edges, name, deps) == db.edges + OutEdges(name, deps) && Acyclic(Rewire(db.edges, name, deps))
  {
    forall d | d in deps ensures !Reaches(db.edges, d, name) {
      NoEdgeInto(db.edges, d, name);
    }
    RewireAcyclic(db.edges, name, deps);
  }

  // ---- the five events ----

  /** user.node_added: the only cycle it can close is through itself. */
  lemma AddedExact(db: Db, target: Option<Label>, draft: Option<Draft>)
    requires Valid(db)
    ensures var decision := ApplyAdded(db, target, draft);
            var writable := target.Some? && draft.Some? && Writable(target.value, draft.value);
            && (decision == Reject(Schema) <==> !writable)
            && (decision == Reject(LabelConflict) <==> writable && target.value in db.nodes)
            && (decision == Reject(Reason.Cycle) <==>
                writable && target.value !in db.nodes
                && target.value in RefsOf(draft.value.statement, draft.value.proof))
            && (decision.Accept? <==>
                writable && target.value !in db.nodes
                && target.value !in RefsOf(draft.value.statement, draft.value.proof))
  {
    if target.Some? && draft.Some? {
      ContentExact(target.value, draft.value);
      if Writable(target.value, draft.value) && target.value !in db.nodes {
        AddedCycle(db, target.value, ParseKind(draft.value.kind).value, draft.value);
      }
    }
  }

  lemma AddedCycle(db: Db, name: Label, kind: Kind, draft: Draft)
    requires Valid(db) && name !in db.nodes
    ensures Acyclic(PutNode(db, name, Assembled(db.nodes, name, kind, draft)).edges) <==> name !in DraftRefs(draft)
  {
    var row := Assembled(db.nodes, name, kind, draft);
    if name in DraftRefs(draft) {
      SelfReferenceCycles(db, name, row);
    } else {
      var deps := Resolved(db.nodes, DraftRefs(draft));
      assert Resolved(PutNode(db, name, row).nodes, Refs(row)) == deps;
      NewSource(db, name, deps);
    }
  }

  /** The new references close a cycle: one is the node itself or depends on it already. */
  ghost predicate ClosesCycle(db: Db, name: Label, draft: Draft) {
    exists r :: r in RefsOf(draft.statement, draft.proof)
                && (r == name || (r in db.nodes && Reaches(db.edges, r, name)))
  }

  lemma RevisedCycle(db: Db, name: Label, kind: Kind, draft: Draft)
    requires Valid(db) && name in db.nodes
    ensures Acyclic(RevisedDb(db, name, kind, draft).edges) <==> !ClosesCycle(db, name, draft)
  {
    var row := RevisedDb(db, name, kind, draft).nodes[name];
    var deps := Resolved(db.nodes, DraftRefs(draft));
    assert Refs(row) == DraftRefs(draft);
    assert Resolved(RevisedDb(db, name, kind, draft).nodes, Refs(row)) == deps;
    RewireAcyclic(db.edges, name, deps);
    ReachesRefl(db.edges, name);
  }

  /** user.node_revised */
  lemma RevisedExact(db: Db, target: Option<Label>, draft: Option<Draft>)
    requires Valid(db)
    ensures var decision := ApplyRevised(db, target, draft);
            var found := target.Some? && target.value in db.nodes;
            var same := found && draft.Some? && draft.value.kind == KindName(db.nodes[target.value].kind);
            && (decision == Reject(RefMissing) <==> target.Some? && !found)
            && (decision == Reject(KindMutation) <==> found && draft.Some? && KnownKind(draft.value.kind) && !same)
            && (decision == Reject(Schema) <==>
                || target.None?
                || (found && (draft.None? || !KnownKind(draft.value.kind)))
                || (same && !Writable(target.value, draft.value)))
            && (decision == Reject(Reason.Cycle) <==>
                same && Writable(target.value, draft.value) && ClosesCycle(db, target.value, draft.value))
            && (decision.Accept? <==>
                same && Writable(target.value, draft.value) && !ClosesCycle(db, target.value, draft.value))
  {
    if target.Some? && target.value in db.nodes && draft.Some? {
      ContentExact(target.value, draft.value);
      KindExact(draft.value.kind);
      KindNamed(db.nodes[target.value].kind);
      if ParseKind(draft.value.kind).Some? {
        KindNames(draft.value.kind);
        RevisedCycle(db, target.value, ParseKind(draft.value.kind).value, draft.value);
      }
    }
  }

  lemma KindNamed(kind: Kind)
    ensures ParseKind(KindName(kind)) == Some(kind)
  {
  }

  /** user.hint_attached: refused exactly for blank hints, missing nodes and verified nodes. */
  lemma HintExact(db: Db, target: Option<Label>, hint: string, stamp: string)
    ensures var decision := ApplyHint(db, target, hint, stamp);
            var blank := forall c :: c in hint ==> IsSpace(c);
            && (decision == Reject(Schema) <==> target.None? || blank)
            && (decision == Reject(HintTargetMissing) <==> target.Some? && !blank && target.value !in db.nodes)
            && (decision == Reject(HintTargetUnreachable) <==>
                target.Some? && !blank && target.value in db.nodes && db.nodes[target.value].passCount > 0)
            && (decision.Accept? <==>
                target.Some? && !blank && target.value in db.nodes && db.nodes[target.value].passCount <= 0)
  {
    StripBlank(hint);
  }

  /** verifier.run_completed: refused exactly when malformed, for a missing node, or for a text that
      is no longer the current one. */
  lemma VerdictExact(db: Db, target: Option<Label>, run: Option<Run>)
    ensures var decision := ApplyVerdict(db, target, run);
            var formed := target.Some? && run.Some?
                          && (run.value.verdict == "accepted" || run.value.verdict == "gap"
                              || run.value.verdict == "critical");
            && (decision == Reject(Schema) <==> !formed)
            && (decision == Reject(RefMissing) <==> formed && target.value !in db.nodes)
            && (decision == Reject(HashMismatch) <==>
                formed && target.value in db.nodes
                && db.nodes[target.value].verificationHash != run.value.verificationHash)
            && (decision.Accept? <==>
                formed && target.value in db.nodes
                && db.nodes[target.value].verificationHash == run.value.verificationHash)
  {
  }

  /** What an applied verdict leaves, field by field. */
  lemma VerdictLeaves(db: Db, target: Option<Label>, run: Option<Run>, x: Label)
    requires ApplyVerdict(db, target, run).Accept? && x in db.nodes
    ensures x in ApplyVerdict(db, target, run).db.nodes && ApplyVerdict(db, target, run).db.edges == db.edges
    ensures var before, row := db.nodes[x], ApplyVerdict(db, target, run).db.nodes[x];
            if target != Some(x) then row == before
            else
              && SameText(before, row) && row.statementHash == before.statementHash
              && row.verificationHash == before.verificationHash && row.report == run.value.report
              && if run.value.verdict == "accepted"
                 then row.passCount == (if before.passCount < 0 then 1 else before.passCount + 1)
                      && row.repairCount == before.repairCount && row.hint == before.hint
                 else row.passCount == -1 && row.repairCount == before.repairCount + 1
  {
  }

  // ---- batches ----

  ghost predicate Usable(target: Label, entries: seq<BatchEntry>) {
    && target != ""
    && (forall i :: 0 <= i < |entries| ==>
                      && entries[i].name.Some? && entries[i].draft.Some?
                      && entries[i].draft.value.kind != "external_theorem"
                      && LabelOf(entries[i].name.value, entries[i].draft.value.kind))
    && (forall i, j :: 0 <= i < j < |entries| ==> entries[i].name != entries[j].name)
    && exists i :: 0 <= i < |entries| && entries[i].name == Some(target)
  }

  lemma UsableExact(target: Label, entries: seq<BatchEntry>)
    ensures BatchFits(target, entries) <==> Usable(target, entries)
  {
    forall i | 0 <= i < |entries| && entries[i].name.Some? && entries[i].draft.Some?
      ensures EntryFits(entries[i]) <==>
              && entries[i].draft.value.kind != "external_theorem"
              && LabelOf(entries[i].name.value, entries[i].draft.value.kind)
    {
      LabelExact(entries[i].name.value, entries[i].draft.value.kind);
      KindExact(entries[i].draft.value.kind);
      ExternalKind(entries[i].draft.value.kind);
    }
  }

  lemma ExternalKind(kind: string)
    ensures kind == "external_theorem" <==> ParseKind(kind) == Some(ExternalTheorem)
  {
  }

  ghost predicate Member(entries: seq<BatchEntry>, x: Label) {
    exists i :: 0 <= i < |entries| && entries[i].name == Some(x)
  }

  predicate Cites(entries: seq<BatchEntry>, x: Label, d: Label) {
    && EntryDraft(entries, x).Some?
    && d in RefsOf(EntryDraft(entries, x).value.statement, EntryDraft(entries, x).value.proof)
  }

  /** The references of the batch among its own members, self-references aside. */
  ghost predicate IsInner(entries: seq<BatchEntry>, inner: Graph<Label>) {
    forall e: (Label, Label) :: e in inner <==> Cites(entries, e.0, e.1) && Member(entries, e.1) && e.0 != e.1
  }

  /** The edges there are once the batch is written. */
  ghost predicate IsAfter(db: Db, entries: seq<BatchEntry>, after: Graph<Label>) {
    forall e: (Label, Label) ::
      e in after <==>
           if Member(entries, e.0) then Cites(entries, e.0, e.1) && (e.1 in db.nodes || Member(entries, e.1))
           else e in db.edges
  }

  lemma MemberExact(target: Label, entries: seq<BatchEntry>, x: Label)
    requires BatchFits(target, entries)
    ensures Member(entries, x) <==> x in BatchOf(entries)
    ensures x in BatchOf(entries) ==> EntryDraft(entries, x) == Some(BatchOf(entries)[x])
    ensures x !in BatchOf(entries) ==> EntryDraft(entries, x) == None
  {
    BatchNames(target, entries, x);
    EntryLookup(entries, x);
    assert Member(entries, x) <==> x in EntryNames(entries);
  }

  lemma InnerExact(target: Label, entries: seq<BatchEntry>, inner: Graph<Label>)
    requires BatchFits(target, entries) && IsInner(entries, inner)
    ensures inner == BatchGraph(BatchOf(entries))
  {
    forall e: (Label, Label) ensures e in inner <==> e in BatchGraph(BatchOf(entries)) {
      MemberExact(target, entries, e.0);
      MemberExact(target, entries, e.1);
    }
  }

  lemma AfterExact(db: Db, target: Label, entries: seq<BatchEntry>, after: Graph<Label>)
    requires BatchFits(target, entries) && IsAfter(db, entries, after)
    ensures after == BatchEdges(db.edges, db.nodes.Keys + BatchOf(entries).Keys, BatchOf(entries))
  {
    var edges := BatchEdges(db.edges, db.nodes.Keys + BatchOf(entries).Keys, BatchOf(entries));
    forall e: (Label, Label) ensures e in after <==> e in edges {
      MemberExact(target, entries, e.0);
      MemberExact(target, entries, e.1);
    }
  }

  /** generator.batch_committed */
  lemma BatchExact(db: Db, target: Label, entries: seq<BatchEntry>, inner: Graph<Label>, after: Graph<Label>)
    requires Valid(db) && IsInner(entries, inner) && IsAfter(db, entries, after)
    ensures var decision := ApplyBatch(db, target, entries);
            var usable := Usable(target, entries);
            var taken := exists x :: Member(entries, x) && x != target && x in db.nodes;
            var mutated := target in db.nodes && EntryDraft(entries, target).Some?
                           && EntryDraft(entries, target).value.kind != KindName(db.nodes[target].kind);
            && (decision == Reject(Schema) <==> !usable)
            && (decision == Reject(LabelConflict) <==> usable && taken)
            && (decision == Reject(KindMutation) <==> usable && !taken && Acyclic(inner) && mutated)
            && (decision == Reject(Reason.Cycle) <==>
                usable && !taken && (!Acyclic(inner) || (!mutated && !Acyclic(after))))
            && (decision.Accept? <==> usable && !taken && Acyclic(inner) && !mutated && Acyclic(after))
  {
    UsableExact(target, entries);
    if Usable(target, entries) {
      InnerExact(target, entries, inner);
      AfterExact(db, target, entries, after);
      TakenExact(db, target, entries);
      TargetKind(db, target, entries);
    }
  }

  lemma TakenExact(db: Db, target: Label, entries: seq<BatchEntry>)
    requires BatchFits(target, entries)
    ensures (exists x :: x in BatchOf(entries) && x != target && x in db.nodes)
       <==> exists x :: Member(entries, x) && x != target && x in db.nodes
  {
    forall x ensures Member(entries, x) <==> x in BatchOf(entries) {
      MemberExact(target, entries, x);
    }
  }

  lemma TargetKind(db: Db, target: Label, entries: seq<BatchEntry>)
    requires BatchFits(target, entries)
    ensures target in BatchOf(entries) && EntryDraft(entries, target).Some?
    ensures target in db.nodes ==>
              (db.nodes[target].kind != KindIn(BatchOf(entries), target)
               <==> EntryDraft(entries, target).value.kind != KindName(db.nodes[target].kind))
  {
    MemberExact(target, entries, target);
    var kind := BatchOf(entries)[target].kind;
    KindNames(kind);
    if target in db.nodes {
      KindNamed(db.nodes[target].kind);
    }
  }

  // ---- the record of an event ----

  /** The label an event is about. */
  function Subject(event: Event): Option<Label> {
    if event.body.BatchCommitted? then Some(event.body.batchTarget) else event.target
  }

  /** An event is decided once. Its record says under which file hash, about which label and with
      which refusal; a refused event leaves rows and edges alone; a second file under a decided
      identity, or an inadmissible one, is corruption and leaves everything alone. */
  lemma RecordExact(db: Db, event: Event)
    requires Valid(db)
    ensures var (db', result) := Apply(db, event);
            var decided := event.id in db.applied;
            && (result == Corruption <==> !event.admissible || (decided && db.applied[event.id].sha != event.sha))
            && (result == Corruption || decided ==> db' == db)
            && (decided && result != Corruption ==>
                  var failure := db.applied[event.id].failure;
                  result == if failure.Some? then ApplyFailed(failure.value) else Applied)
            && (event.admissible && !decided ==>
                  && event.id in db'.applied && db'.applied[event.id].sha == event.sha
                  && db'.applied[event.id].target == (if result == Applied then Subject(event) else event.target)
                  && (db'.applied[event.id].failure == None <==> result == Applied)
                  && (forall id :: id != event.id ==> (id in db'.applied <==> id in db.applied))
                  && (forall id :: id in db.applied ==> id in db'.applied && db'.applied[id] == db.applied[id])
                  && (forall reason :: db'.applied[event.id].failure == Some(reason)
                                       <==> result == ApplyFailed(reason)))
            && (result.ApplyFailed? ==> db'.nodes == db.nodes && db'.edges == db.edges)
  {
    DecidesSubject(db, event);
  }

  lemma DecidesSubject(db: Db, event: Event)
    ensures Decide(db, event).Accept? ==>
              Some(Decide(db, event).target) == Subject(event) && Decide(db, event).db.applied == db.applied
  {
    match event.body
    case NodeAdded(draft) => AddedSubject(db, event.target, draft);
    case NodeRevised(draft) => RevisedSubject(db, event.target, draft);
    case HintAttached(hint, stamp) => HintSubject(db, event.target, hint, stamp);
    case BatchCommitted(target, entries) => BatchSubject(db, target, entries);
    case VerifierRun(run) => VerdictSubject(db, event.target, run);
  }

  ghost predicate About(db: Db, decision: Decision, subject: Option<Label>) {
    decision.Accept? ==> Some(decision.target) == subject && decision.db.applied == db.applied
  }

  lemma AddedSubject(db: Db, target: Option<Label>, draft: Option<Draft>)
    ensures About(db, ApplyAdded(db, target, draft), target)
  {
  }

  lemma RevisedSubject(db: Db, target: Option<Label>, draft: Option<Draft>)
    ensures About(db, ApplyRevised(db, target, draft), target)
  {
  }

  lemma HintSubject(db: Db, target: Option<Label>, hint: string, stamp: string)
    ensures About(db, ApplyHint(db, target, hint, stamp), target)
  {
  }

  lemma BatchSubject(db: Db, target: Label, entries: seq<BatchEntry>)
    ensures About(db, ApplyBatch(db, target, entries), Some(target))
  {
    if ApplyBatch(db, target, entries).Accept? {
      CommitSubject(db, target, BatchOf(entries));
    }
  }

  lemma CommitSubject(db: Db, target: Label, batch: Batch)
    requires KindsParse(batch) && Acyclic(BatchGraph(batch)) && target in batch
    ensures About(db, CommitBatch(db, target, batch), Some(target))
  {
  }

  lemma VerdictSubject(db: Db, target: Option<Label>, run: Option<Run>)
    ensures About(db, ApplyVerdict(db, target, run), target)
  {
  }
}
