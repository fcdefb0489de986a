/** Accept-only convergence: verifier dispatch and acceptance in any interleaving finish every
    node after a number of verdicts that is known beforehand. */
module Convergence {
  import opened Graphs
  import opened Invariants
  import opened Labels
  import opened Projection
  import opened Scheduler
  import opened Search
  import opened Store

  /** Verifier jobs that were dispatched and whose verdict is still out. */
  datatype Work = Work(db: Db, inFlight: set<Label>)

  /** Nothing is rejected, and no node has more passes than a dependency. */
  ghost predicate Monotone(db: Db) {
    && (forall x :: x in db.nodes ==> db.nodes[x].passCount >= 0)
    && forall e :: e in db.edges && e.0 in db.nodes && e.1 in db.nodes ==>
                     db.nodes[e.0].passCount <= db.nodes[e.1].passCount
  }

  /** A job in flight is below the goal and strictly behind its dependencies. */
  ghost predicate JobOk(db: Db, desired: int, x: Label) {
    && x in db.nodes && db.nodes[x].passCount < desired
    && forall d :: (x, d) in db.edges ==> d in db.nodes && db.nodes[x].passCount < db.nodes[d].passCount
  }

  ghost predicate WorkOk(w: Work, desired: int) {
    Valid(w.db) && Monotone(w.db) && forall x :: x in w.inFlight ==> JobOk(w.db, desired, x)
  }

  ghost predicate Dispatch(w: Work, w': Work, desired: int, x: Label) {
    x in VerifierPool(w.db, desired) && x !in w.inFlight && w' == w.(inFlight := w.inFlight + {x})
  }

  /** The verdict of a job in flight: accepted, for the hash the job was dispatched with. */
  ghost predicate AcceptingVerdict(w: Work, event: Event, x: Label) {
    && x in w.inFlight && x in w.db.nodes
    && event.admissible && event.id !in w.db.applied && event.target == Some(x)
    && event.body.VerifierRun? && event.body.run.Some?
    && event.body.run.value.verdict == "accepted"
    && event.body.run.value.verificationHash == w.db.nodes[x].verificationHash
  }

  ghost predicate Accept(w: Work, w': Work, event: Event, x: Label) {
    AcceptingVerdict(w, event, x) && w' == Work(Apply(w.db, event).0, w.inFlight - {x})
  }

  ghost predicate Accepts(w: Work, w': Work) {
    exists event, x :: Accept(w, w', event, x)
  }

  ghost predicate Dispatches(w: Work, w': Work, desired: int) {
    exists x :: Dispatch(w, w', desired, x)
  }

  // ---- the verdicts that are still missing ----

  function Missing(db: Db, desired: int, x: Label): nat
    requires x in db.nodes
  {
    if db.nodes[x].passCount < desired then desired - db.nodes[x].passCount else 0
  }

  ghost function Remaining(db: Db, desired: int, names: set<Label>): nat
    requires names <= db.nodes.Keys
  {
    if names == {} then 0
    else
      var x := Least(names);
      Missing(db, desired, x) + Remaining(db, desired, names - {x})
  }

  lemma {:induction false} RemainingPick(db: Db, desired: int, names: set<Label>, x: Label)
    requires names <= db.nodes.Keys && x in names
    ensures Remaining(db, desired, names) == Missing(db, desired, x) + Remaining(db, desired, names - {x})
  {
    var y := Least(names);
    if x != y {
      RemainingPick(db, desired, names - {y}, x);
      RemainingPick(db, desired, names - {x}, y);
      assert names - {y} - {x} == names - {x} - {y};
    }
  }

  lemma {:induction false} RemainingSame(db: Db, db': Db, desired: int, names: set<Label>)
    requires names <= db.nodes.Keys && names <= db'.nodes.Keys
    requires forall x :: x in names ==> db'.nodes[x].passCount == db.nodes[x].passCount
    ensures Remaining(db', desired, names) == Remaining(db, desired, names)
    decreases names
  {
    if names != {} {
      RemainingSame(db, db', desired, names - {Least(names)});
    }
  }

  lemma {:induction false} NothingRemains(db: Db, desired: int, names: set<Label>)
    requires names <= db.nodes.Keys
    ensures Remaining(db, desired, names) == 0 <==> forall x :: x in names ==> db.nodes[x].passCount >= desired
    decreases names
  {
    if names != {} {
      NothingRemains(db, desired, names - {Least(names)});
    }
  }

  // ---- steps ----

  /** What an accepted verdict changes: one pass more for x, and nothing else anyone looks at. */
  lemma AcceptEffect(w: Work, w': Work, event: Event, x: Label)
    requires Monotone(w.db) && Accept(w, w', event, x)
    ensures w'.db.nodes.Keys == w.db.nodes.Keys && w'.db.edges == w.db.edges
    ensures w'.db.nodes[x].passCount == w.db.nodes[x].passCount + 1
    ensures forall y :: y in w.db.nodes && y != x ==> w'.db.nodes[y] == w.db.nodes[y]
    ensures w'.db.nodes[x].verificationHash == w.db.nodes[x].verificationHash
  {
  }

  /** One pass more for x: what that does to the counts of a store. */
  ghost predicate Bumped(db: Db, db': Db, x: Label) {
    && x in db.nodes && db'.nodes.Keys == db.nodes.Keys && db'.edges == db.edges
    && db'.nodes[x].passCount == db.nodes[x].passCount + 1
    && forall y :: y in db.nodes && y != x ==> db'.nodes[y].passCount == db.nodes[y].passCount
  }

  lemma BumpKeeps(db: Db, db': Db, desired: int, x: Label)
    requires Monotone(db) && Bumped(db, db', x) && JobOk(db, desired, x) && Acyclic(db.edges)
    ensures Monotone(db')
    ensures forall y :: y != x && JobOk(db, desired, y) ==> JobOk(db', desired, y)
  {
    forall e | e in db.edges && e.0 in db.nodes && e.1 in db.nodes
      ensures db'.nodes[e.0].passCount <= db'.nodes[e.1].passCount
    {
      assert (e.0, e.1) in db.edges;
    }
  }

  lemma BumpCounts(db: Db, db': Db, desired: int, x: Label)
    requires Bumped(db, db', x) && db.nodes[x].passCount < desired
    ensures Remaining(db', desired, db'.nodes.Keys) == Remaining(db, desired, db.nodes.Keys) - 1
  {
    var names := db.nodes.Keys;
    RemainingPick(db, desired, names, x);
    RemainingPick(db', desired, names, x);
    RemainingSame(db, db', desired, names - {x});
  }

  lemma AcceptKeeps(w: Work, w': Work, desired: int, event: Event, x: Label)
    requires WorkOk(w, desired) && Accept(w, w', event, x)
    ensures WorkOk(w', desired)
    ensures Remaining(w'.db, desired, w'.db.nodes.Keys) == Remaining(w.db, desired, w.db.nodes.Keys) - 1
  {
    ApplyKeepsValid(w.db, event);
    AcceptEffect(w, w', event, x);
    assert Bumped(w.db, w'.db, x);
    BumpKeeps(w.db, w'.db, desired, x);
    BumpCounts(w.db, w'.db, desired, x);
  }

  lemma DispatchKeeps(w: Work, w': Work, desired: int, x: Label)
    requires WorkOk(w, desired) && Dispatch(w, w', desired, x)
    ensures WorkOk(w', desired) && w'.db == w.db
  {
    DepsOfCandidate(w.db, x);
  }

  ghost predicate Run(run: seq<Work>, desired: int) {
    && run != []
    && forall i :: 0 <= i < |run| - 1 ==> Dispatches(run[i], run[i + 1], desired) || Accepts(run[i], run[i + 1])
  }

  ghost function Verdicts(run: seq<Work>): nat {
    if |run| < 2 then 0
    else Verdicts(run[..|run| - 1]) + if Accepts(run[|run| - 2], run[|run| - 1]) then 1 else 0
  }

  /** No step is both a dispatch and an acceptance, so Verdicts counts acceptances. */
  lemma NotBoth(w: Work, w': Work, desired: int)
    requires Dispatches(w, w', desired)
    ensures !Accepts(w, w')
  {
    var x :| Dispatch(w, w', desired, x);
    assert x in w'.inFlight && x !in w.inFlight;
  }

  /** Along every interleaving of dispatches and acceptances the order of passes is kept, and
      every verdict brings the end exactly one step closer. */
  lemma {:induction false} RunKeeps(run: seq<Work>, desired: int)
    requires Run(run, desired) && WorkOk(run[0], desired)
    ensures WorkOk(run[|run| - 1], desired)
    ensures Verdicts(run) + Remaining(run[|run| - 1].db, desired, run[|run| - 1].db.nodes.Keys)
         == Remaining(run[0].db, desired, run[0].db.nodes.Keys)
  {
    if |run| >= 2 {
      var front := run[..|run| - 1];
      forall i | 0 <= i < |front| - 1
        ensures Dispatches(front[i], front[i + 1], desired) || Accepts(front[i], front[i + 1]) {
        assert Dispatches(run[i], run[i + 1], desired) || Accepts(run[i], run[i + 1]);
      }
      RunKeeps(front, desired);
      var w, w' := run[|run| - 2], run[|run| - 1];
      assert Dispatches(w, w', desired) || Accepts(w, w') by {
        assert Dispatches(run[|run| - 2], run[|run| - 2 + 1], desired) || Accepts(run[|run| - 2], run[|run| - 2 + 1]);
      }
      if Dispatches(w, w', desired) {
        NotBoth(w, w', desired);
        var x :| Dispatch(w, w', desired, x);
        DispatchKeeps(w, w', desired, x);
      } else {
        var event, x :| Accept(w, w', event, x);
        AcceptKeeps(w, w', desired, event, x);
      }
    }
  }

  /** A run that can go no further, with no job in flight and nothing to dispatch, has finished
      every node, after exactly the number of verdicts missing at its start. */
  lemma AcceptOnlyConverges(run: seq<Work>, desired: int)
    requires desired >= 1 && Run(run, desired) && WorkOk(run[0], desired)
    ensures var last := run[|run| - 1];
            last.inFlight == {} && VerifierPool(last.db, desired) == {} ==>
              && (forall x :: x in last.db.nodes ==> last.db.nodes[x].passCount >= desired)
              && Verdicts(run) == Remaining(run[0].db, desired, run[0].db.nodes.Keys)
    ensures Verdicts(run) <= Remaining(run[0].db, desired, run[0].db.nodes.Keys)
  {
    RunKeeps(run, desired);
    var last := run[|run| - 1];
    NothingRemains(last.db, desired, last.db.nodes.Keys);
    if VerifierPool(last.db, desired) == {} {
      forall x | x in last.db.nodes ensures last.db.nodes[x].passCount >= desired {
        if last.db.nodes[x].passCount < desired {
          NoDeadlock(last.db, desired, x);
        }
      }
    }
  }
}
