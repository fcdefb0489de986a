/** When a wipe that stops half way leaves a replayed log behind, and when it does not. */
module TornWipe {
  import opened Coherence
  import opened EdgeHashes
  import opened Footprint
  import opened Invariants
  import opened Labels
  import opened Projection
  import opened Search
  import opened Store

  /** Some event is recorded as applied. */
  ghost predicate AnyApplied(db: Db) {
    exists id :: id in db.applied && db.applied[id].failure.None?
  }

  lemma AcceptLeavesNodes(db: Db, event: Event)
    requires Valid(db) && Decide(db, event).Accept?
    ensures Decide(db, event).db.nodes != map[]
  {
    match event.body
    case NodeAdded(draft) => assert event.target.value in Decide(db, event).db.nodes;
    case NodeRevised(draft) => RevisedLeavesNodes(db, event.target, draft);
    case HintAttached(hint, stamp) => assert event.target.value in Decide(db, event).db.nodes;
    case BatchCommitted(target, entries) => BatchLeavesNodes(db, target, entries);
    case VerifierRun(run) => assert event.target.value in Decide(db, event).db.nodes;
  }

  lemma RevisedLeavesNodes(db: Db, target: Option<Label>, draft: Option<Draft>)
    requires Valid(db) && ApplyRevised(db, target, draft).Accept?
    ensures ApplyRevised(db, target, draft).db.nodes != map[]
  {
    RevisedKeepsNodes(db, target, draft);
    assert target.value in ApplyRevised(db, target, draft).db.nodes;
  }

  lemma BatchLeavesNodes(db: Db, target: Label, entries: seq<BatchEntry>)
    requires Valid(db) && ApplyBatch(db, target, entries).Accept?
    ensures ApplyBatch(db, target, entries).db.nodes != map[]
  {
    AcceptedBatch(db, target, entries);
    var mid := BatchMid(db, target, BatchOf(entries));
    assert target in mid.nodes;
    if target in db.nodes {
      WithCascadeKeys(mid, target, db.nodes[target]);
      assert target in ApplyBatch(db, target, entries).db.nodes;
    }
  }

  /** A replayed log with an applied event has a node. */
  lemma {:induction false} ReplayHasNodes(log: seq<Event>)
    requires AnyApplied(Replay(log))
    ensures Replay(log).nodes != map[]
  {
    if log != [] {
      var front, event := log[..|log| - 1], log[|log| - 1];
      var db := Replay(front);
      ReplayValid(front);
      NodesKept(db, event);
      if event.admissible && event.id !in db.applied && Decide(db, event).Accept? {
        AcceptLeavesNodes(db, event);
      } else {
        assert AnyApplied(db);
        ReplayHasNodes(front);
        var x :| x in db.nodes;
        assert x in Replay(log).nodes;
      }
    }
  }

  /** A replayed log without an applied event is empty but for its records. */
  lemma {:induction false} NothingApplied(log: seq<Event>)
    requires !AnyApplied(Replay(log))
    ensures Replay(log).nodes == map[] && Replay(log).edges == {}
  {
    if log != [] {
      var front, event := log[..|log| - 1], log[|log| - 1];
      NoneEarlier(Replay(front), event);
      NothingApplied(front);
    }
  }

  lemma NoneEarlier(db: Db, event: Event)
    requires !AnyApplied(Apply(db, event).0)
    ensures !AnyApplied(db) && Apply(db, event).0.nodes == db.nodes && Apply(db, event).0.edges == db.edges
  {
    var db' := Apply(db, event).0;
    assert event.id in db'.applied ==> db'.applied[event.id].failure.Some?;
    if id :| id in db.applied && db.applied[id].failure.None? {
      assert id in db'.applied && db'.applied[id].failure.None?;
      assert AnyApplied(db');
    }
  }

  /** The same rows have the same edges in all replayed logs. */
  lemma SameNodesSameEdges(log: seq<Event>, other: seq<Event>)
    requires Replay(log).nodes == Replay(other).nodes
    ensures Replay(log).edges == Replay(other).edges
  {
    var a, b := Replay(log), Replay(other);
    ReplayValid(log);
    ReplayValid(other);
    ReplayReadable(log);
    ReplayReadable(other);
    forall e: (Label, Label) ensures e in a.edges <==> e in b.edges {
      if e.0 in a.nodes {
        assert ReadableAt(a.nodes, a.edges, e.0) && ReadableAt(b.nodes, b.edges, e.0);
        assert (e.0, e.1) == e;
      }
    }
  }

  ghost predicate IsReplay(db: Db) {
    exists log :: Replay(log) == db
  }

  /** Whether the first n deletes of a wipe take away something that a replay cannot miss. */
  ghost predicate Torn(db: Db, n: nat) {
    (n == 1 && db.edges != {}) || (n == 2 && AnyApplied(db))
  }

  /** What a crash after n deletes of a wipe leaves behind is the replay of some log, exactly
      unless the first delete removed an edge and the second has not run, or the second has run
      and the record of an applied event is still there. */
  lemma TornWipeExact(log: seq<Event>, n: nat)
    requires n <= WIPE_DELETES
    ensures IsReplay(Wiped(Replay(log), n)) <==> !Torn(Replay(log), n)
  {
    var db := Replay(log);
    if Torn(db, n) {
      forall other ensures Replay(other) != Wiped(db, n) {
        TornIsNoReplay(log, n, other);
      }
    } else {
      if n == 2 {
        NothingApplied(log);
      }
      assert Replay([]) == EMPTY_DB;
      assert Wiped(db, n) == if n <= 2 then Replay(log) else Replay([]);
    }
  }

  /** Records without rows: no log leaves them, whatever the store was before. */
  lemma TornWipeIsNoReplay(db: Db, log: seq<Event>)
    requires AnyApplied(db)
    ensures Replay(log) != Wiped(db, 2)
  {
    if Replay(log) == Wiped(db, 2) {
      assert AnyApplied(Replay(log));
      ReplayHasNodes(log);
    }
  }

  lemma TornIsNoReplay(log: seq<Event>, n: nat, other: seq<Event>)
    requires Torn(Replay(log), n)
    ensures Replay(other) != Wiped(Replay(log), n)
  {
    if Replay(other) == Wiped(Replay(log), n) {
      if n == 1 {
        SameNodesSameEdges(log, other);
      } else {
        TornWipeIsNoReplay(Replay(log), other);
      }
    }
  }
}
