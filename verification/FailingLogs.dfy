/** Concrete logs on which the code falls short of its documentation: a stale hash after a
    revision, a dangling reference, false alarms of the linter, a hint cut by a refusal. */
module FailingLogs {
  import opened Audit
  import opened CascadeReset
  import opened Coherence
  import opened Decisions
  import opened Graphs
  import opened Hashing
  import opened Hints
  import opened HintSections
  import opened History
  import opened Invariants
  import opened Labels
  import opened MerkleCascade
  import opened Projection
  import opened Search
  import opened Store
  import opened TextLaws
  import opened Texts
  import opened TornWipe

  function Defining(statement: string): Draft {
    Draft("definition", statement, "", "", "")
  }

  function EventAt(ms: nat, name: Label, body: Body): Event {
    Event(EventId(ms, 0, 0), "", true, Some(name), body)
  }

  function Added(ms: nat, name: Label, draft: Draft): Event {
    EventAt(ms, name, NodeAdded(Some(draft)))
  }

  // ---- reading the literals ----

  lemma {:induction false} NoRefs(text: string)
    requires '\\' !in text
    ensures RefGroups(text) == []
  {
    if |text| >= |REF_OPEN| {
      assert text[0] in text;
      NoRefs(text[1..]);
    }
  }

  lemma NothingToStrip(name: string)
    requires name != "" && !IsSpace(name[0]) && !IsSpace(name[|name| - 1])
    ensures Strip(name) == name
  {
  }

  lemma PlainRefs(text: string)
    requires '\\' !in text
    ensures RefsOf(text, "") == []
  {
    NoRefs(text + "\n" + "");
  }

  lemma OneRef(name: Label)
    requires name != "" && '}' !in name && Strip(name) == name
    ensures RefsOf(REF_OPEN + name + "}", "") == [name]
  {
    RefThen(name, "\n");
    NoRefs("\n");
    assert REF_OPEN + name + "}" + "\n" + "" == REF_OPEN + name + "}" + "\n";
    assert [name] + [] == [name];
    assert FirstAppearances([name], []) == FirstAppearances([], [] + [name]);
  }

  lemma TwoRefs(name: Label, other: Label)
    requires name != "" && '}' !in name && Strip(name) == name
    requires other != "" && '}' !in other && Strip(other) == other && name != other
    ensures RefsOf(REF_OPEN + name + "}" + (REF_OPEN + other + "}"), "") == [name, other]
  {
    var rest := REF_OPEN + other + "}" + "\n";
    RefThen(name, rest);
    RefThen(other, "\n");
    NoRefs("\n");
    assert REF_OPEN + name + "}" + (REF_OPEN + other + "}") + "\n" + "" == REF_OPEN + name + "}" + rest;
    assert [name] + ([other] + []) == [name, other];
    assert FirstAppearances([name, other], []) == FirstAppearances([other], [] + [name])
        == FirstAppearances([], [name] + [other]);
  }

  lemma ShortLabel(name: Label, kind: Kind)
    requires kind.Definition? || kind.Lemma?
    requires |name| == 5 && name[..4] == KindPrefix(kind) + ":" && SlugChar(name[4])
    ensures LabelFits(name, kind)
  {
    assert name[..3] == KindPrefix(kind) && name[3] == ':' by {
      assert name[..4][..3] == KindPrefix(kind) && name[..4][3] == ':';
    }
    IndexAfter(name, ':', 0, 3);
    assert name[4..] == [name[4]];
  }

  // ---- one event ----

  /** db' is db with one more node, edges to what it cites, and the record of its event. */
  ghost predicate Grows(db: Db, db': Db, event: Event, name: Label, row: Row) {
    && Valid(db') && db'.nodes == db.nodes[name := row]
    && db'.edges == db.edges + OutEdges(name, Resolved(db.nodes, Refs(row)))
    && db'.applied == db.applied[event.id := AppliedEvent(None, event.sha, Some(name))]
    && (Coherent(db.nodes, db.edges) ==> (Coherent(db'.nodes, db'.edges) <==> RefsKnown(db.nodes.Keys, Refs(row))))
  }

  /** A fresh label that does not cite itself is always accepted. */
  lemma AddAccepted(db: Db, event: Event, name: Label, kind: Kind, draft: Draft)
    requires Valid(db) && event.admissible && event.id !in db.applied
    requires event.target == Some(name) && event.body == NodeAdded(Some(draft))
    requires ParseKind(draft.kind) == Some(kind) && ContentFits(name, kind, draft)
    requires name !in db.nodes && name !in DraftRefs(draft)
    ensures Apply(db, event).1 == Applied
    ensures Grows(db, Apply(db, event).0, event, name, Assembled(db.nodes, name, kind, draft))
  {
    var row := Assembled(db.nodes, name, kind, draft);
    var mid, deps := PutNode(db, name, row), Resolved(db.nodes, DraftRefs(draft));
    assert Resolved(mid.nodes, Refs(row)) == deps;
    NewSource(db, name, deps);
    ApplyKeepsValid(db, event);
    assert ApplyAdded(db, Some(name), Some(draft)) == Accept(mid, name);
    if Coherent(db.nodes, db.edges) {
      AddedCoherence(db, Some(name), Some(draft));
    }
  }

  // ---- a stale hash ----

  /** Labels and statements of the example: b cites s directly and through z, and sorts before z. */
  datatype Triangle = Triangle(s: Label, b: Label, z: Label, first: string, cites: string, citesBoth: string,
                               second: string)

  ghost predicate Fits(t: Triangle) {
    && LabelFits(t.s, Definition) && LabelFits(t.b, Definition) && LabelFits(t.z, Definition)
    && t.s != t.b && t.s != t.z && t.b != t.z && Leq(t.b, t.z)
    && t.first != "" && t.cites != "" && t.citesBoth != "" && t.second != "" && t.first != t.second
    && RefsOf(t.first, "") == [] && RefsOf(t.second, "") == []
    && RefsOf(t.cites, "") == [t.s] && RefsOf(t.citesBoth, "") == [t.s, t.z]
  }

  function AddS(t: Triangle): Event {
    Added(1, t.s, Defining(t.first))
  }

  function AddZ(t: Triangle): Event {
    Added(2, t.z, Defining(t.cites))
  }

  function AddB(t: Triangle): Event {
    Added(3, t.b, Defining(t.citesBoth))
  }

  function ReviseS(t: Triangle): Event {
    EventAt(4, t.s, NodeRevised(Some(Defining(t.second))))
  }

  /** Three definitions and a new statement for the first. */
  function StaleLog(t: Triangle): seq<Event> {
    [AddS(t), AddZ(t), AddB(t), ReviseS(t)]
  }

  ghost predicate AllApplied(db: Db) {
    forall id :: id in db.applied ==> db.applied[id].failure.None?
  }

  ghost predicate Definitions(db: Db) {
    forall x :: x in db.nodes ==> db.nodes[x].kind == Definition
  }

  /** A store built from definitions by applied events before ms. */
  ghost predicate Built(db: Db, ms: nat, names: set<Label>, edges: Graph<Label>) {
    && Valid(db) && Coherent(db.nodes, db.edges) && db.nodes.Keys == names && db.edges == edges
    && Definitions(db) && (forall id :: id in db.applied ==> id.isoMs < ms) && AllApplied(db)
  }

  lemma BuildNext(db: Db, db': Db, event: Event, name: Label, row: Row, names: set<Label>, edges: Graph<Label>)
    requires db.nodes.Keys + {name} == names && db.edges + OutEdges(name, Elements(Refs(row))) == edges
    requires Coherent(db.nodes, db.edges) && Definitions(db) && AllApplied(db)
    requires (forall id :: id in db.applied ==> id.isoMs < event.id.isoMs) && row.kind == Definition
    requires Grows(db, db', event, name, row) && RefsKnown(db.nodes.Keys, Refs(row))
    ensures Built(db', event.id.isoMs + 1, names, edges)
  {
    assert Resolved(db.nodes, Refs(row)) == Elements(Refs(row));
    DefinitionsGrow(db, db', event, name, row);
  }

  lemma DefinitionsGrow(db: Db, db': Db, event: Event, name: Label, row: Row)
    requires Definitions(db) && AllApplied(db) && row.kind == Definition
    requires (forall id :: id in db.applied ==> id.isoMs < event.id.isoMs)
    requires db'.nodes == db.nodes[name := row]
    requires db'.applied == db.applied[event.id := AppliedEvent(None, event.sha, Some(name))]
    ensures Definitions(db') && AllApplied(db') && forall id :: id in db'.applied ==> id.isoMs < event.id.isoMs + 1
  {
  }

  lemma Defined(db: Db, event: Event, name: Label, statement: string, names: set<Label>, edges: Graph<Label>)
    requires Built(db, event.id.isoMs, db.nodes.Keys, db.edges)
    requires event == Added(event.id.isoMs, name, Defining(statement))
    requires name !in db.nodes && LabelFits(name, Definition) && statement != ""
    requires RefsKnown(db.nodes.Keys, RefsOf(statement, ""))
    requires db.nodes.Keys + {name} == names && db.edges + OutEdges(name, Elements(RefsOf(statement, ""))) == edges
    ensures var db' := Apply(db, event).0;
            && Built(db', event.id.isoMs + 1, names, edges)
            && db'.nodes[name].statement == statement && forall x :: x in db.nodes ==> db'.nodes[x] == db.nodes[x]
  {
    var row := Assembled(db.nodes, name, Definition, Defining(statement));
    AddAccepted(db, event, name, Definition, Defining(statement));
    BuildNext(db, Apply(db, event).0, event, name, row, names, edges);
  }

  lemma EmptyBuilt()
    ensures Built(EMPTY_DB, 1, {}, {})
  {
    ReplayValid([]);
  }

  ghost function Triangled(t: Triangle): Db {
    Apply(Apply(Apply(EMPTY_DB, AddS(t)).0, AddZ(t)).0, AddB(t)).0
  }

  lemma FirstBuilt(t: Triangle)
    requires Fits(t)
    ensures Built(Apply(EMPTY_DB, AddS(t)).0, 2, {t.s}, {})
    ensures Apply(EMPTY_DB, AddS(t)).0.nodes[t.s].statement == t.first
  {
    EmptyBuilt();
    NoEdges(t.s);
    Defined(EMPTY_DB, AddS(t), t.s, t.first, {t.s}, {});
  }

  lemma SecondBuilt(db: Db, t: Triangle)
    requires Fits(t) && Built(db, 2, {t.s}, {}) && db.nodes[t.s].statement == t.first
    ensures var db' := Apply(db, AddZ(t)).0;
            Built(db', 3, {t.s, t.z}, {(t.z, t.s)}) && db'.nodes[t.s].statement == t.first
  {
    OneEdge(t.z, t.s);
    Defined(db, AddZ(t), t.z, t.cites, {t.s, t.z}, {(t.z, t.s)});
  }

  lemma ThirdBuilt(db: Db, t: Triangle)
    requires Fits(t) && Built(db, 3, {t.s, t.z}, {(t.z, t.s)}) && db.nodes[t.s].statement == t.first
    ensures var db' := Apply(db, AddB(t)).0;
            Built(db', 4, {t.s, t.z, t.b}, Diamond(t.s, t.b, t.z)) && db'.nodes[t.s].statement == t.first
  {
    TwoEdges(t.b, t.s, t.z);
    DiamondEdges(t.s, t.b, t.z);
    Defined(db, AddB(t), t.b, t.citesBoth, {t.s, t.z, t.b}, Diamond(t.s, t.b, t.z));
  }

  lemma DiamondEdges(s: Label, b: Label, z: Label)
    ensures {(z, s)} + {(b, s), (b, z)} == Diamond(s, b, z)
  {
  }

  lemma TriangleBuilt(t: Triangle)
    requires Fits(t)
    ensures Built(Triangled(t), 4, {t.s, t.z, t.b}, Diamond(t.s, t.b, t.z))
    ensures Triangled(t).nodes[t.s].statement == t.first
  {
    FirstBuilt(t);
    SecondBuilt(Apply(EMPTY_DB, AddS(t)).0, t);
    ThirdBuilt(Apply(Apply(EMPTY_DB, AddS(t)).0, AddZ(t)).0, t);
  }

  lemma NoEdges(x: Label)
    ensures OutEdges(x, Elements([])) == {}
  {
  }

  lemma OneEdge(x: Label, d: Label)
    ensures OutEdges(x, Elements([d])) == {(x, d)}
  {
  }

  lemma TwoEdges(x: Label, d: Label, e: Label)
    ensures OutEdges(x, Elements([d, e])) == {(x, d), (x, e)}
  {
  }

  lemma NewStatementNewHash(db: Db, x: Label, draft: Draft)
    requires x in db.nodes && CoherentAt(db.nodes, db.edges, x) && draft.statement != db.nodes[x].statement
    ensures RevisedDb(db, x, Definition, draft).nodes[x].statementHash != db.nodes[x].statementHash
  {
  }

  lemma RevisionApplies(db: Db, event: Event, name: Label, draft: Draft)
    requires Valid(db) && event.admissible && event.id !in db.applied && name in db.nodes
    requires db.nodes[name].kind == Definition
    requires event.target == Some(name) && event.body == NodeRevised(Some(draft))
    requires ParseKind(draft.kind) == Some(Definition) && ContentFits(name, Definition, draft)
    requires RevisedDb(db, name, Definition, draft).edges == db.edges
    ensures var (db', result) := Apply(db, event);
            result == Applied && db'.edges == db.edges
            && db'.applied == db.applied[event.id := AppliedEvent(None, event.sha, Some(name))]
            && db'.nodes == WithCascade(RevisedDb(db, name, Definition, draft), name, db.nodes[name]).nodes
  {
    var mid := RevisedDb(db, name, Definition, draft);
    assert ApplyRevised(db, Some(name), Some(draft)) == Accept(WithCascade(mid, name, db.nodes[name]), name);
  }

  /** The revision is applied, and its cascade leaves a hash stale. */
  lemma RevisionLeavesStale(db: Db, t: Triangle)
    requires Fits(t) && Built(db, 4, {t.s, t.z, t.b}, Diamond(t.s, t.b, t.z)) && db.nodes[t.s].statement == t.first
    ensures var (db', result) := Apply(db, ReviseS(t));
            result == Applied && !Coherent(db'.nodes, db'.edges) && AllApplied(db')
  {
    RevisionRuns(db, t);
    NewStatementNewHash(db, t.s, Defining(t.second));
    TriangleTurns(db, t, Defining(t.second));
  }

  lemma RevisionRuns(db: Db, t: Triangle)
    requires Fits(t) && Valid(db) && t.s in db.nodes && db.edges == Diamond(t.s, t.b, t.z)
    requires db.nodes[t.s].kind == Definition && AllApplied(db) && forall id :: id in db.applied ==> id.isoMs < 4
    ensures var (db', result) := Apply(db, ReviseS(t));
            && result == Applied && AllApplied(db') && db'.edges == db.edges
            && db'.nodes == WithCascade(RevisedDb(db, t.s, Definition, Defining(t.second)), t.s, db.nodes[t.s]).nodes
  {
    DiamondSources(t.s, t.b, t.z);
    CitingNothing(db, t.s, Definition, Defining(t.second));
    RevisionApplies(db, ReviseS(t), t.s, Defining(t.second));
  }

  lemma TriangleTurns(db: Db, t: Triangle, draft: Draft)
    requires Fits(t) && Built(db, 4, {t.s, t.z, t.b}, Diamond(t.s, t.b, t.z)) && DraftRefs(draft) == []
    requires RevisedDb(db, t.s, Definition, draft).nodes[t.s].statementHash != db.nodes[t.s].statementHash
    ensures var mid := RevisedDb(db, t.s, Definition, draft);
            !Coherent(WithCascade(mid, t.s, db.nodes[t.s]).nodes, db.edges)
  {
    DiamondStaysStale(db, t.s, t.b, t.z, Definition, draft);
  }

  lemma StaleInOrder(t: Triangle)
    ensures InKeyOrder(StaleLog(t))
  {
  }

  lemma StaleReplay(t: Triangle)
    requires Fits(t)
    ensures InKeyOrder(StaleLog(t))
    ensures !Coherent(Replay(StaleLog(t)).nodes, Replay(StaleLog(t)).edges) && AllApplied(Replay(StaleLog(t)))
  {
    TriangleBuilt(t);
    RevisionLeavesStale(Triangled(t), t);
    StaleInOrder(t);
    ReplayFour(AddS(t), AddZ(t), AddB(t), ReviseS(t));
  }

  lemma ReplayFour(a: Event, b: Event, c: Event, d: Event)
    ensures Replay([a, b, c, d]) == Apply(Apply(Apply(Apply(EMPTY_DB, a).0, b).0, c).0, d).0
  {
    var log := [a, b, c, d];
    assert log[..0] == [] && log[..4] == log;
    ReplayNext(log, 0);
    ReplayNext(log, 1);
    ReplayNext(log, 2);
    ReplayNext(log, 3);
  }

  const THREE_DEFINITIONS := Triangle("def:s", "def:b", "def:z", "S", "\\ref{def:s}", "\\ref{def:s}\\ref{def:z}", "T")

  lemma LiteralsFit()
    ensures Fits(THREE_DEFINITIONS)
  {
    var t := THREE_DEFINITIONS;
    ShortLabel(t.s, Definition);
    ShortLabel(t.b, Definition);
    ShortLabel(t.z, Definition);
    LiteralRefs();
    LiteralOrder();
  }

  lemma LiteralRefs()
    ensures var t := THREE_DEFINITIONS;
            && RefsOf(t.first, "") == [] && RefsOf(t.second, "") == []
            && RefsOf(t.cites, "") == [t.s] && RefsOf(t.citesBoth, "") == [t.s, t.z]
  {
    PlainRefs("S");
    PlainRefs("T");
    CitesOne();
    CitesTwo();
  }

  lemma LiteralCitations()
    ensures "\\ref{def:s}" == REF_OPEN + "def:s" + "}" && "\\ref{def:z}" == REF_OPEN + "def:z" + "}"
  {
  }

  lemma CitesOne()
    ensures RefsOf("\\ref{def:s}", "") == ["def:s"]
  {
    NothingToStrip("def:s");
    OneRef("def:s");
    LiteralCitations();
  }

  lemma CitesTwo()
    ensures RefsOf("\\ref{def:s}\\ref{def:z}", "") == ["def:s", "def:z"]
  {
    NothingToStrip("def:s");
    NothingToStrip("def:z");
    TwoRefs("def:s", "def:z");
    LiteralCitations();
    LiteralPair();
  }

  lemma LiteralPair()
    ensures "\\ref{def:s}\\ref{def:z}" == "\\ref{def:s}" + "\\ref{def:z}"
  {
  }

  lemma LiteralOrder()
    ensures Leq("def:b", "def:z")
  {
    assert "def:b"[1..] == "ef:b" && "def:z"[1..] == "ef:z";
    assert "ef:b"[1..] == "f:b" && "ef:z"[1..] == "f:z";
    assert "f:b"[1..] == ":b" && "f:z"[1..] == ":z";
    assert ":b"[1..] == "b" && ":z"[1..] == "z";
  }

  /** Three definitions and one revision, all applied, and a hash in the store is stale. */
  lemma StaleHashLog()
    ensures var db := Replay(StaleLog(THREE_DEFINITIONS));
            InKeyOrder(StaleLog(THREE_DEFINITIONS)) && AllApplied(db) && !Coherent(db.nodes, db.edges)
  {
    LiteralsFit();
    StaleReplay(THREE_DEFINITIONS);
  }

  // ---- a dangling reference ----

  /** One definition that cites a label without a node. */
  lemma DanglingLog()
    ensures var db := Replay([Added(1, "def:b", Defining("\\ref{def:s}"))]);
            AllApplied(db) && !Coherent(db.nodes, db.edges)
  {
    var t := THREE_DEFINITIONS;
    LiteralsFit();
    DanglingAdd(Added(1, t.b, Defining(t.cites)), t.b, t.cites, t.s);
  }

  lemma DanglingAdd(event: Event, name: Label, statement: string, missing: Label)
    requires event == Added(1, name, Defining(statement)) && LabelFits(name, Definition) && statement != ""
    requires RefsOf(statement, "") == [missing] && missing != name
    ensures AllApplied(Replay([event])) && !Coherent(Replay([event]).nodes, Replay([event]).edges)
  {
    ReplayOne(event);
    EmptyBuilt();
    AddAccepted(EMPTY_DB, event, name, Definition, Defining(statement));
    assert missing in DraftRefs(Defining(statement));
  }

  lemma ReplayOne(a: Event)
    ensures Replay([a]) == Apply(EMPTY_DB, a).0
  {
    assert [a][..0] == [] && [a][..1] == [a];
    ReplayNext([a], 0);
  }

  // ---- false alarms of the linter ----

  /** When the last event names a change of x, the linter counts no verdict on x. */
  lemma NamedLast(log: seq<Event>, db: Db, x: Label)
    requires InKeyOrder(log) && log != [] && NamesChange(log[|log| - 1], x) && db == Replay(log) && x in db.nodes
    ensures PassAudit(log, db, x) == (if BlankProof(db.nodes[x]) then -1 else 0) && RepairAudit(log, db, x) == 0
  {
    NamedLastEmpty(log, x);
    AuditsOfNone(log, db, x);
  }

  lemma AuditsOfNone(log: seq<Event>, db: Db, x: Label)
    requires x in db.nodes && RunsOn(FactsOn(db.applied, x, Boundary(log, x), Facts(log)), x) == []
    ensures PassAudit(log, db, x) == if BlankProof(db.nodes[x]) then -1 else 0
    ensures RepairAudit(log, db, x) == 0
  {
  }

  lemma NamedLastEmpty(log: seq<Event>, x: Label)
    requires InKeyOrder(log) && log != [] && NamesChange(log[|log| - 1], x)
    ensures RunsOn(FactsOn(Replay(log).applied, x, Boundary(log, x), Facts(log)), x) == []
  {
    var n := |log|;
    BoundaryAbove(log, x, n - 1);
    FactsAreRuns(log, x, n);
    TakeAll(log);
  }

  function Judging(ms: nat, name: Label, run: Run): Event {
    EventAt(ms, name, VerifierRun(Some(run)))
  }

  function VerdictOn(name: Label, statement: string, verdict: string): Run {
    Run(verdict, VerificationHash(StatementHash(name, Definition, statement, map[]), ""), "", "")
  }

  /** A definition, a verdict on it, and an attempt to add it again, which is refused. */
  function AlarmLog(name: Label, statement: string, verdict: string): seq<Event> {
    [Added(1, name, Defining(statement)), Judging(2, name, VerdictOn(name, statement, verdict)),
     Added(3, name, Defining(statement))]
  }

  lemma DefinedRow(name: Label, statement: string)
    requires LabelFits(name, Definition) && statement != "" && RefsOf(statement, "") == []
    ensures var db := Apply(EMPTY_DB, Added(1, name, Defining(statement))).0;
            && Built(db, 2, {name}, {}) && db.nodes[name].passCount == 0 && db.nodes[name].repairCount == 0
            && db.nodes[name].verificationHash
               == VerificationHash(StatementHash(name, Definition, statement, map[]), "")
  {
    var event := Added(1, name, Defining(statement));
    EmptyBuilt();
    AddAccepted(EMPTY_DB, event, name, Definition, Defining(statement));
    NoEdges(name);
    Defined(EMPTY_DB, event, name, statement, {name}, {});
  }

  lemma JudgedOnce(db: Db, name: Label, run: Run)
    requires Built(db, 2, {name}, {}) && db.nodes[name].passCount == 0 && db.nodes[name].repairCount == 0
    requires Known(run.verdict) && run.verificationHash == db.nodes[name].verificationHash
    ensures var db' := Apply(db, Judging(2, name, run)).0;
            && name in db'.nodes && db'.nodes[name] == VerdictRow(db.nodes[name], run)
            && forall id :: id in db'.applied ==> id.isoMs < 3
  {
  }

  lemma AddedAgain(db: Db, name: Label, statement: string)
    requires name in db.nodes && (forall id :: id in db.applied ==> id.isoMs < 3)
    ensures Apply(db, Added(3, name, Defining(statement))).0.nodes == db.nodes
  {
  }

  lemma ReplayThree(a: Event, b: Event, c: Event)
    ensures Replay([a, b, c]) == Apply(Apply(Apply(EMPTY_DB, a).0, b).0, c).0
  {
    var log := [a, b, c];
    assert log[..0] == [] && log[..3] == log;
    ReplayNext(log, 0);
    ReplayNext(log, 1);
    ReplayNext(log, 2);
  }

  lemma AlarmRow(name: Label, statement: string, verdict: string)
    requires LabelFits(name, Definition) && statement != "" && RefsOf(statement, "") == [] && Known(verdict)
    ensures var db := Replay(AlarmLog(name, statement, verdict));
            && name in db.nodes && db.nodes[name].kind == Definition
            && (verdict == "accepted" ==> db.nodes[name].passCount == 1)
            && (verdict != "accepted" ==> db.nodes[name].passCount == -1 && db.nodes[name].repairCount == 1)
  {
    var a, run := Added(1, name, Defining(statement)), VerdictOn(name, statement, verdict);
    var db1 := Apply(EMPTY_DB, a).0;
    DefinedRow(name, statement);
    JudgedOnce(db1, name, run);
    AddedAgain(Apply(db1, Judging(2, name, run)).0, name, statement);
    ReplayThree(a, Judging(2, name, run), Added(3, name, Defining(statement)));
  }

  lemma AlarmAudit(name: Label, statement: string, verdict: string)
    requires LabelFits(name, Definition) && statement != "" && RefsOf(statement, "") == [] && Known(verdict)
    ensures var log := AlarmLog(name, statement, verdict);
            && InKeyOrder(log) && name in Replay(log).nodes
            && PassAudit(log, Replay(log), name) == 0 && RepairAudit(log, Replay(log), name) == 0
  {
    AlarmRow(name, statement, verdict);
    NamedLast(AlarmLog(name, statement, verdict), Replay(AlarmLog(name, statement, verdict)), name);
  }

  /** One pass, and check C expects none. */
  lemma PassAlarmLog()
    ensures var log := AlarmLog("def:s", "S", "accepted");
            && InKeyOrder(log) && "def:s" in Replay(log).nodes
            && Replay(log).nodes["def:s"].passCount == 1 && PassAudit(log, Replay(log), "def:s") == 0
  {
    ShortLabel("def:s", Definition);
    PlainRefs("S");
    AlarmRow("def:s", "S", "accepted");
    AlarmAudit("def:s", "S", "accepted");
  }

  /** One refusal, and check D expects none. */
  lemma RepairAlarmLog()
    ensures var log := AlarmLog("def:s", "S", "gap");
            && InKeyOrder(log) && "def:s" in Replay(log).nodes
            && Replay(log).nodes["def:s"].repairCount == 1 && RepairAudit(log, Replay(log), "def:s") == 0
  {
    ShortLabel("def:s", Definition);
    PlainRefs("S");
    AlarmRow("def:s", "S", "gap");
    AlarmAudit("def:s", "S", "gap");
  }

  /** A lemma whose proof is one space starts at 0, and check C expects -1. */
  lemma BlankAlarmLog()
    ensures var log := [Added(1, "lem:x", Draft("lemma", "S", " ", "", ""))];
            && "lem:x" in Replay(log).nodes
            && Replay(log).nodes["lem:x"].passCount == 0 && PassAudit(log, Replay(log), "lem:x") == -1
  {
    ShortLabel("lem:x", Lemma);
    NoRefs("S" + "\n" + " ");
    BlankAlarm("lem:x", Draft("lemma", "S", " ", "", ""));
  }

  lemma BlankAlarm(name: Label, draft: Draft)
    requires draft.kind == "lemma" && ContentFits(name, Lemma, draft) && draft.proof != ""
    requires Strip(draft.proof) == "" && DraftRefs(draft) == []
    ensures var log := [Added(1, name, draft)];
            && name in Replay(log).nodes && Replay(log).nodes[name].passCount == 0
            && PassAudit(log, Replay(log), name) == -1
  {
    var event := Added(1, name, draft);
    ReplayOne(event);
    EmptyBuilt();
    AddAccepted(EMPTY_DB, event, name, Lemma, draft);
    NamedLast([event], Replay([event]), name);
  }

  // ---- a hint cut by a refusal ----

  /** The line "---" inside a hint hides what follows it from every prompt after a refusal. */
  lemma CutHint(verifierHint: string)
    ensures MergeVerifierSection(AttachUserSection("", "t", "keep\n---\nlost"), verifierHint)
         == MergeVerifierSection(AttachUserSection("", "t", "keep"), verifierHint)
  {
    assert "keep\n---\nlost" == "keep" + RULE + "lost";
    ShortClean("\n" + "keep" + "\n");
    ShortClean("lost" + "\n");
    NothingToStrip("keep");
    RuleLineCutsHint("t", "keep", "lost", verifierHint);
  }

  lemma ShortClean(s: string)
    requires forall c :: c in s ==> c != '-'
    ensures Clean(s)
  {
    forall i | 0 <= i <= |s| ensures !(RULE <= s[i..]) {
      RuleAt(s, i);
      if i + 1 < |s| {
        assert s[i + 1] in s;
      }
    }
  }

  /** A refusal with a blank hint takes the section of the refusal before with it. */
  lemma BlankRefusal()
    ensures MergeVerifierSection("", "fix") == "fix\n" && MergeVerifierSection("fix\n", "") == ""
  {
    ShortClean("fix\n");
    SplitOne("fix\n");
    OneBlock("fix\n");
  }

  // ---- a torn wipe ----

  /** Two definitions, one citing the other: after the first delete of a wipe, and after the
      second, the store is no replay. */
  lemma TornWipeLog()
    ensures var t := THREE_DEFINITIONS;
            var db := Replay([AddS(t), AddZ(t)]);
            AllApplied(db) && !IsReplay(Wiped(db, 1)) && !IsReplay(Wiped(db, 2))
  {
    LiteralsFit();
    TornReplay(THREE_DEFINITIONS);
  }

  lemma TornReplay(t: Triangle)
    requires Fits(t)
    ensures var db := Replay([AddS(t), AddZ(t)]);
            AllApplied(db) && !IsReplay(Wiped(db, 1)) && !IsReplay(Wiped(db, 2))
  {
    var log := [AddS(t), AddZ(t)];
    ReplayTwo(AddS(t), AddZ(t));
    FirstBuilt(t);
    SecondBuilt(Apply(EMPTY_DB, AddS(t)).0, t);
    TornPair(log, (t.z, t.s));
  }

  lemma TornPair(log: seq<Event>, e: (Label, Label))
    requires e in Replay(log).edges
    ensures !IsReplay(Wiped(Replay(log), 1)) && !IsReplay(Wiped(Replay(log), 2))
  {
    if !AnyApplied(Replay(log)) {
      NothingApplied(log);
    }
    TornWipeExact(log, 1);
    TornWipeExact(log, 2);
  }

  lemma ReplayTwo(a: Event, b: Event)
    ensures Replay([a, b]) == Apply(Apply(EMPTY_DB, a).0, b).0
  {
    var log := [a, b];
    assert log[..0] == [] && log[..2] == log;
    ReplayNext(log, 0);
    ReplayNext(log, 1);
  }
}
