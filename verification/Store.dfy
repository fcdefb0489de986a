/** The projected knowledge base as a value: node rows, DependsOn edges and the
    AppliedEvent table (common/kb/types.py, common/kb/kuzu_backend.py). */
module Store {
  import opened Graphs
  import opened Hashing
  import opened Labels
  import opened Search
  import opened Texts

  datatype Row = Row(
    kind: Kind,
    statement: string,
    proof: string,
    remark: string,
    sourceNote: string,
    statementHash: Hash,
    verificationHash: Hash,
    passCount: int,
    repairCount: int,
    report: string,
    hint: string)

  datatype Reason = LabelConflict | Cycle | RefMissing | HintTargetMissing
                  | HintTargetUnreachable | HashMismatch | KindMutation | Schema

  /** Event identity iso_ms-seq-uid; its order is the causal order of the log. */
  datatype EventId = EventId(isoMs: nat, sequence: nat, uid: nat)

  datatype AppliedEvent = AppliedEvent(failure: Option<Reason>, sha: string, target: Option<Label>)

  type Nodes = map<Label, Row>

  datatype Db = Db(nodes: Nodes, edges: Graph<Label>, applied: map<EventId, AppliedEvent>)

  const EMPTY_DB := Db(map[], {}, map[])

  /** How many statements wipe runs. Each commits on its own. */
  const WIPE_DELETES := 4

  /** The store after the first n of them: DependsOn, Node, AppliedEvent, and a table that
      nothing here reads. */
  function Wiped(db: Db, n: nat): Db {
    if n == 0 then db
    else if n == 1 then db.(edges := {})
    else if n == 2 then db.(edges := {}, nodes := map[])
    else EMPTY_DB
  }

  function Refs(row: Row): (r: seq<Label>)
    ensures Distinct(r)
  {
    RefsOf(row.statement, row.proof)
  }

  function DepsOf(edges: Graph<Label>, name: Label): set<Label> {
    set e | e in edges && e.0 == name :: e.1
  }

  function DependentsOf(edges: Graph<Label>, name: Label): set<Label> {
    set e | e in edges && e.1 == name :: e.0
  }

  /** The refs that MATCH finds a node for, hence the edges that get created. */
  function Resolved(nodes: Nodes, refs: seq<Label>): set<Label> {
    set d | d in refs && d in nodes
  }

  function HashOf(nodes: Nodes, name: Label): Hash {
    if name in nodes then nodes[name].statementHash else NoHash
  }

  /** Dependency hashes as node assembly sees them: a self-reference and a missing node hash as "". */
  function AssembledDeps(nodes: Nodes, name: Label, refs: seq<Label>): map<Label, Hash> {
    map d | d in refs :: if d == name then NoHash else HashOf(nodes, d)
  }

  /** Dependency hashes as the cascade sees them: existing edges only. */
  function EdgeDeps(nodes: Nodes, edges: Graph<Label>, name: Label): map<Label, Hash> {
    map d | d in DepsOf(edges, name) && d in nodes :: nodes[d].statementHash
  }

  function PutNode(db: Db, name: Label, row: Row): Db {
    var nodes := db.nodes[name := row];
    db.(nodes := nodes, edges := Rewire(db.edges, name, Resolved(nodes, Refs(row))))
  }

  // ---- structural checks shared by the handlers ----

  const PLACEHOLDER_LABELS: set<Label> := {
    "thm:main", "thm:helper", "thm:placeholder", "lem:helper", "lem:key_step", "lem:main",
    "lem:placeholder", "prop:aux", "prop:claim1", "prop:helper", "prop:main", "def:object",
    "def:placeholder", "ext:placeholder"
  }

  predicate SlugChar(c: char) {
    'a' <= c <= 'z' || '0' <= c <= '9' || c == '_'
  }

  /** ^[a-z0-9_]+$, whose $ also matches before one final newline. */
  predicate SlugFits(slug: string) {
    var body := if slug != "" && slug[|slug| - 1] == '\n' then slug[..|slug| - 1] else slug;
    body != "" && forall c :: c in body ==> SlugChar(c)
  }

  predicate LabelFits(name: Label, kind: Kind) {
    var colon := IndexFrom(name, ':', 0);
    && colon < |name|
    && name[..colon] == KindPrefix(kind)
    && SlugFits(name[colon + 1..])
    && name !in PLACEHOLDER_LABELS
  }
}
