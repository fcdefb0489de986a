/** The dispatch part of a coordinator tick (coordinator/main.py, _tick and _decide_idle_reason;
    coordinator/precheck.py): pools, selection, pre-dispatch checks, and why it never deadlocks. */
module Scheduler {
  import opened Dispatcher
  import opened Graphs
  import opened Hashing
  import opened Invariants
  import opened Labels
  import opened Search
  import opened Store

  /** One row of the coordinator snapshot with its dependencies' hashes and counts. */
  datatype Candidate = Candidate(
    target: Label,
    kind: Kind,
    verificationHash: Hash,
    passCount: int,
    repairCount: int,
    depHashes: map<Label, Hash>,
    depCounts: map<Label, int>,
    lastRejected: Hash)

  function CandidateOf(db: Db, name: Label): Candidate
    requires name in db.nodes
  {
    var row := db.nodes[name];
    var deps := set d | d in DepsOf(db.edges, name) && d in db.nodes;
    Candidate(name, row.kind, row.verificationHash, row.passCount, row.repairCount,
              map d | d in deps :: db.nodes[d].statementHash,
              map d | d in deps :: db.nodes[d].passCount,
              row.verificationHash)
  }

  function DepCount(c: Candidate, d: Label): int {
    if d in c.depCounts then c.depCounts[d] else -1
  }

  predicate DepsReady(c: Candidate) {
    forall d :: d in c.depHashes ==> DepCount(c, d) >= 1 && c.depHashes[d] != NoHash
  }

  predicate DepsStrictlyAhead(c: Candidate) {
    forall d :: d in c.depHashes ==> DepCount(c, d) > c.passCount
  }

  predicate InGeneratorPool(c: Candidate) {
    c.passCount == -1 && RequiresProof(c.kind) && DepsReady(c)
  }

  predicate InVerifierPool(c: Candidate, desired: int) {
    0 <= c.passCount < desired && DepsReady(c) && DepsStrictlyAhead(c)
  }

  function GeneratorPool(db: Db): set<Label> {
    set x | x in db.nodes && InGeneratorPool(CandidateOf(db, x))
  }

  function VerifierPool(db: Db, desired: int): set<Label> {
    set x | x in db.nodes && InVerifierPool(CandidateOf(db, x), desired)
  }

  datatype Refusal = PoolMismatch | InFlight | DepsNotReady | DepsNotStrictlyAhead | MissingRejected | RejectedStale

  function PrecheckGenerator(c: Candidate, inFlight: set<Label>): Option<Refusal> {
    if c.passCount != -1 then Some(PoolMismatch)
    else if c.target in inFlight then Some(InFlight)
    else if !DepsReady(c) then Some(DepsNotReady)
    else if c.repairCount == 0 then None
    else if c.lastRejected == NoHash then Some(MissingRejected)
    else if c.lastRejected != c.verificationHash then Some(RejectedStale)
    else None
  }

  function PrecheckVerifier(c: Candidate, inFlight: set<Label>): Option<Refusal> {
    if c.passCount < 0 then Some(PoolMismatch)
    else if c.target in inFlight then Some(InFlight)
    else if !DepsReady(c) then Some(DepsNotReady)
    else if !DepsStrictlyAhead(c) then Some(DepsNotStrictlyAhead)
    else None
  }

  predicate Unfinished(db: Db, desired: int, x: Label) {
    x in db.nodes && db.nodes[x].passCount < desired
  }

  /** A definition or external theorem whose last verdict rejected it: only a user can move it. */
  predicate UserBlocked(db: Db, x: Label) {
    x in db.nodes && db.nodes[x].passCount == -1 && !RequiresProof(db.nodes[x].kind)
  }

  lemma DepsOfCandidate(db: Db, x: Label)
    requires Valid(db) && x in db.nodes
    ensures forall d :: d in CandidateOf(db, x).depHashes <==> (x, d) in db.edges
    ensures forall d :: (x, d) in db.edges ==>
                          d in db.nodes && CandidateOf(db, x).depHashes[d] != NoHash
                          && DepCount(CandidateOf(db, x), d) == db.nodes[d].passCount
  {
    forall d | (x, d) in db.edges ensures d in db.nodes && RowValid(db.nodes[d]) {
    }
    forall d ensures d in DepsOf(db.edges, x) <==> (x, d) in db.edges {
    }
  }

  // ---- the pools, read off rows and edges ----

  ghost predicate DepsVerified(db: Db, x: Label) {
    forall d :: (x, d) in db.edges ==> d in db.nodes && db.nodes[d].passCount >= 1
  }

  ghost predicate DepsAhead(db: Db, x: Label)
    requires x in db.nodes
  {
    forall d :: (x, d) in db.edges ==> d in db.nodes && db.nodes[d].passCount > db.nodes[x].passCount
  }

  /** x waits for a proof and may get one now. */
  ghost predicate WantsProof(db: Db, x: Label) {
    && x in db.nodes && db.nodes[x].passCount == -1
    && !db.nodes[x].kind.Definition? && !db.nodes[x].kind.ExternalTheorem? && DepsVerified(db, x)
  }

  /** x waits for a verdict and may get one now. */
  ghost predicate WantsVerdict(db: Db, desired: int, x: Label) {
    x in db.nodes && 0 <= db.nodes[x].passCount < desired && DepsVerified(db, x) && DepsAhead(db, x)
  }

  lemma ReadyExact(db: Db, x: Label)
    requires Valid(db) && x in db.nodes
    ensures DepsReady(CandidateOf(db, x)) <==> DepsVerified(db, x)
    ensures DepsStrictlyAhead(CandidateOf(db, x)) <==> DepsAhead(db, x)
  {
    VerifiedExact(db, x);
    AheadExact(db, x);
  }

  lemma VerifiedExact(db: Db, x: Label)
    requires Valid(db) && x in db.nodes
    ensures DepsReady(CandidateOf(db, x)) <==> DepsVerified(db, x)
  {
    DepsOfCandidate(db, x);
    if DepsReady(CandidateOf(db, x)) {
      forall d | (x, d) in db.edges ensures d in db.nodes && db.nodes[d].passCount >= 1 {
        assert d in CandidateOf(db, x).depHashes;
      }
    }
  }

  lemma AheadExact(db: Db, x: Label)
    requires Valid(db) && x in db.nodes
    ensures DepsStrictlyAhead(CandidateOf(db, x)) <==> DepsAhead(db, x)
  {
    DepsOfCandidate(db, x);
    if DepsStrictlyAhead(CandidateOf(db, x)) {
      forall d | (x, d) in db.edges ensures d in db.nodes && db.nodes[d].passCount > db.nodes[x].passCount {
        assert d in CandidateOf(db, x).depHashes;
      }
    }
  }

  /** The pools hold exactly the nodes that wait and whose dependencies are verified. */
  lemma PoolsExact(db: Db, desired: int)
    requires Valid(db)
    ensures forall x :: x in GeneratorPool(db) <==> WantsProof(db, x)
    ensures forall x :: x in VerifierPool(db, desired) <==> WantsVerdict(db, desired, x)
  {
    forall x | x in db.nodes
      ensures x in GeneratorPool(db) <==> WantsProof(db, x)
      ensures x in VerifierPool(db, desired) <==> WantsVerdict(db, desired, x)
    {
      ReadyExact(db, x);
    }
  }

  /** Why the pre-dispatch check refuses a generator job; in a valid store the checks on the
      rejected hash never fire. */
  lemma PrecheckGeneratorExact(db: Db, x: Label, inFlight: set<Label>)
    requires Valid(db) && x in db.nodes
    ensures var refusal, proofless := PrecheckGenerator(CandidateOf(db, x), inFlight), db.nodes[x].passCount == -1;
            && (refusal == Some(PoolMismatch) <==> !proofless)
            && (refusal == Some(Refusal.InFlight) <==> proofless && x in inFlight)
            && (refusal == Some(DepsNotReady) <==> proofless && x !in inFlight && !DepsVerified(db, x))
            && (refusal == None <==> proofless && x !in inFlight && DepsVerified(db, x))
  {
    ReadyExact(db, x);
    assert RowValid(db.nodes[x]);
  }

  /** A repair goes out only with the rejected text on record and still current, whatever row the
      candidate was built from; a first proof needs no record. */
  lemma RepairNeedsRejected(c: Candidate, inFlight: set<Label>)
    ensures PrecheckGenerator(c, inFlight) == None <==>
            && c.passCount == -1 && c.target !in inFlight
            && (forall d :: d in c.depHashes ==> d in c.depCounts && c.depCounts[d] >= 1 && c.depHashes[d] != NoHash)
            && (c.repairCount != 0 ==> c.lastRejected != NoHash && c.lastRejected == c.verificationHash)
  {
  }

  lemma PrecheckVerifierExact(db: Db, x: Label, inFlight: set<Label>)
    requires Valid(db) && x in db.nodes
    ensures var refusal, open := PrecheckVerifier(CandidateOf(db, x), inFlight), db.nodes[x].passCount >= 0;
            && (refusal == Some(PoolMismatch) <==> !open)
            && (refusal == Some(Refusal.InFlight) <==> open && x in inFlight)
            && (refusal == Some(DepsNotReady) <==> open && x !in inFlight && !DepsVerified(db, x))
            && (refusal == Some(DepsNotStrictlyAhead) <==>
                open && x !in inFlight && DepsVerified(db, x) && !DepsAhead(db, x))
            && (refusal == None <==> open && x !in inFlight && DepsVerified(db, x) && DepsAhead(db, x))
  {
    ReadyExact(db, x);
  }

  /** Scheduler deadlock freedom: while some node is unfinished there is work for a generator or
      a verifier, or some axiom waits for its user. */
  lemma NoDeadlock(db: Db, desired: int, unfinished: Label)
    requires Valid(db) && desired >= 1 && Unfinished(db, desired, unfinished)
    ensures GeneratorPool(db) != {} || VerifierPool(db, desired) != {} || exists x :: UserBlocked(db, x)
  {
    var low := set x | x in db.nodes && db.nodes[x].passCount <= 0;
    if low != {} {
      var x := MinimalExists(db.edges, low);
      DepsOfCandidate(db, x);
      assert RowValid(db.nodes[x]);
      assert DepsReady(CandidateOf(db, x));
      if db.nodes[x].passCount == -1 {
        if RequiresProof(db.nodes[x].kind) {
          assert x in GeneratorPool(db);
        } else {
          assert UserBlocked(db, x);
        }
      } else {
        assert x in VerifierPool(db, desired);
      }
    } else {
      var x := LowestMinimal(db, desired, unfinished);
      DepsOfCandidate(db, x);
      assert x in VerifierPool(db, desired);
    }
  }

  /** Among the unfinished nodes with the fewest passes, one that depends on no other of them. */
  lemma {:induction false} LowestMinimal(db: Db, desired: int, start: Label) returns (x: Label)
    requires Valid(db) && Unfinished(db, desired, start)
    requires forall y :: y in db.nodes ==> db.nodes[y].passCount >= 1
    ensures Unfinished(db, desired, x)
    ensures forall d :: (x, d) in db.edges ==> d in db.nodes && db.nodes[d].passCount > db.nodes[x].passCount
    decreases db.nodes[start].passCount
  {
    if y :| y in db.nodes && db.nodes[y].passCount < db.nodes[start].passCount {
      x := LowestMinimal(db, desired, y);
    } else {
      var level := set y | y in db.nodes && db.nodes[y].passCount == db.nodes[start].passCount;
      assert start in level;
      x := MinimalExists(db.edges, level);
    }
  }

  /** What the generator loop of the tick does with the selected labels. */
  method DispatchGenerators(db: Db, targets: seq<Label>, inFlight: set<Label>)
    returns (dispatched: seq<Label>, busy: set<Label>)
    requires Valid(db) && Distinct(targets)
    requires forall x :: x in targets ==> x in GeneratorPool(db) && x !in inFlight
    ensures dispatched == targets && busy == inFlight + Elements(targets)
  {
    dispatched, busy := [], inFlight;
    var i := 0;
    while i < |targets|
      invariant 0 <= i <= |targets|
      invariant dispatched == targets[..i] && busy == inFlight + Elements(targets[..i])
    {
      var x := targets[i];
      TakeStep(targets, i);
      assert x in targets && x !in targets[..i];
      assert RowValid(db.nodes[x]);
      var refusal := PrecheckGenerator(CandidateOf(db, x), busy);
      if refusal == None {
        dispatched, busy := dispatched + [x], busy + {x};
      }
      i := i + 1;
    }
    TakeAll(targets);
  }

  method DispatchVerifiers(db: Db, desired: int, targets: seq<Label>, inFlight: set<Label>)
    returns (dispatched: seq<Label>, busy: set<Label>)
    requires Distinct(targets)
    requires forall x :: x in targets ==> x in VerifierPool(db, desired) && x !in inFlight
    ensures dispatched == targets && busy == inFlight + Elements(targets)
  {
    dispatched, busy := [], inFlight;
    var i := 0;
    while i < |targets|
      invariant 0 <= i <= |targets|
      invariant dispatched == targets[..i] && busy == inFlight + Elements(targets[..i])
    {
      var x := targets[i];
      TakeStep(targets, i);
      assert x in targets && x !in targets[..i];
      var refusal := PrecheckVerifier(CandidateOf(db, x), busy);
      if refusal == None {
        dispatched, busy := dispatched + [x], busy + {x};
      }
      i := i + 1;
    }
    TakeAll(targets);
  }

  function VerifierCandidates(db: Db, desired: int): seq<(Label, int)> {
    var names := SortedLabels(VerifierPool(db, desired));
    seq(|names|, i requires 0 <= i < |names| =>
      assert names[i] in names;
      (names[i], db.nodes[names[i]].passCount))
  }

  lemma VerifierListed(db: Db, desired: int, x: Label)
    requires x in VerifierPool(db, desired)
    ensures (x, db.nodes[x].passCount) in VerifierCandidates(db, desired)
  {
    var names := SortedLabels(VerifierPool(db, desired));
    var i :| 0 <= i < |names| && names[i] == x;
    assert VerifierCandidates(db, desired)[i] == (x, db.nodes[x].passCount);
  }

  lemma ListedVerifier(db: Db, desired: int, c: (Label, int))
    requires c in VerifierCandidates(db, desired)
    ensures c.0 in VerifierPool(db, desired)
  {
    var names := SortedLabels(VerifierPool(db, desired));
    var i :| 0 <= i < |names| && VerifierCandidates(db, desired)[i] == c;
    assert names[i] in names;
  }

  lemma VerifierQueue(db: Db, desired: int)
    ensures MinCount(VerifierCandidates(db, desired)).Keys == VerifierPool(db, desired)
  {
    var count := MinCount(VerifierCandidates(db, desired));
    forall x | x in VerifierPool(db, desired) ensures x in count {
      VerifierListed(db, desired, x);
    }
    forall x | x in count ensures x in VerifierPool(db, desired) {
      ListedVerifier(db, desired, (x, count[x]));
    }
  }

  /** Every node is finished, or some axiom waits for its user and may hold up what rests on it. */
  ghost predicate FinishedOrBlocked(db: Db, desired: int) {
    (forall x :: !Unfinished(db, desired, x)) || exists x :: UserBlocked(db, x)
  }

  lemma EmptyPools(db: Db, desired: int)
    requires Valid(db) && desired >= 1 && GeneratorPool(db) == {} && VerifierPool(db, desired) == {}
    ensures FinishedOrBlocked(db, desired)
  {
    if x :| Unfinished(db, desired, x) {
      NoDeadlock(db, desired, x);
    }
  }

  /** A selection is empty only when everything in the queue is busy. */
  lemma EmptySelection(q: seq<Label>, pool: set<Label>, capacity: nat, busy: set<Label>, out: seq<Label>)
    requires capacity > 0 && Selection(q, capacity, busy, out) && forall x :: x in q <==> x in pool
    ensures out == [] <==> pool <= busy
  {
    if out == [] {
      forall x | x in pool ensures x in busy {
        assert x in q;
      }
    } else {
      assert out[0] in out;
    }
  }

  lemma PoolsDisjoint(db: Db, desired: int, x: Label)
    requires x in GeneratorPool(db)
    ensures x !in VerifierPool(db, desired)
  {
  }

  method SelectGenerators(db: Db, capacity: int, inFlight: set<Label>) returns (targets: seq<Label>)
    ensures Distinct(targets) && forall x :: x in targets ==> x in GeneratorPool(db) && x !in inFlight
    ensures if capacity > 0 then Selection(SortedLabels(GeneratorPool(db)), capacity, inFlight, targets)
            else targets == []
    ensures targets == [] <==> capacity <= 0 || GeneratorPool(db) <= inFlight
  {
    targets := SelectGeneratorTargets(GeneratorPool(db), capacity, inFlight);
    if capacity > 0 {
      EmptySelection(SortedLabels(GeneratorPool(db)), GeneratorPool(db), capacity, inFlight, targets);
    }
  }

  method SelectVerifiers(db: Db, desired: int, capacity: int, inFlight: set<Label>)
    returns (targets: seq<Label>, ghost queue: seq<Label>)
    ensures Distinct(targets) && forall x :: x in targets ==> x in VerifierPool(db, desired) && x !in inFlight
    ensures if capacity > 0
            then Queue(MinCount(VerifierCandidates(db, desired)), queue)
                 && Selection(queue, capacity, inFlight, targets)
            else targets == []
    ensures targets == [] <==> capacity <= 0 || VerifierPool(db, desired) <= inFlight
  {
    targets, queue := SelectVerifierTargets(VerifierCandidates(db, desired), capacity, inFlight);
    VerifierQueue(db, desired);
    if capacity > 0 {
      EmptySelection(queue, VerifierPool(db, desired), capacity, inFlight, targets);
    }
  }

  /** Nothing free is passed over for something behind it in the queue. */
  lemma SelectedBefore(q: seq<Label>, capacity: nat, busy: set<Label>, out: seq<Label>, x: Label, y: Label)
    requires Selection(q, capacity, busy, out) && x in out && y in q && y !in busy && y !in out
    ensures exists i, j :: 0 <= i < j < |q| && q[i] == x && q[j] == y
  {
    var i :| 0 <= i < |q| && q[i] == x;
    var j :| 0 <= j < |q| && q[j] == y;
    assert i < j;
  }

  /** A free node that wants a proof and gets no generator comes behind all that get one. */
  ghost predicate ProofsInOrder(db: Db, inFlight: set<Label>, out: seq<Label>) {
    forall x, y :: x in out && WantsProof(db, y) && y !in inFlight && y !in out ==> Leq(x, y)
  }

  /** A free node that wants a verdict and gets no verifier has more passes than all that get one,
      or as many and a later label. */
  ghost predicate VerdictsInOrder(db: Db, desired: int, inFlight: set<Label>, out: seq<Label>) {
    forall x, y :: x in out && x in db.nodes && WantsVerdict(db, desired, y) && y !in inFlight && y !in out ==>
                     FewerPasses(db, x, y)
  }

  lemma GeneratorOrder(db: Db, desired: int, capacity: nat, inFlight: set<Label>, out: seq<Label>)
    requires Valid(db) && Selection(SortedLabels(GeneratorPool(db)), capacity, inFlight, out)
    ensures ProofsInOrder(db, inFlight, out)
  {
    PoolsExact(db, desired);
    var q := SortedLabels(GeneratorPool(db));
    forall x, y | x in out && WantsProof(db, y) && y !in inFlight && y !in out ensures Leq(x, y) {
      SelectedBefore(q, capacity, inFlight, out, x, y);
    }
  }

  lemma VerifierOrder(db: Db, desired: int, capacity: nat, inFlight: set<Label>, queue: seq<Label>, out: seq<Label>)
    requires Valid(db) && Queue(MinCount(VerifierCandidates(db, desired)), queue)
    requires Selection(queue, capacity, inFlight, out)
    ensures VerdictsInOrder(db, desired, inFlight, out)
  {
    PoolsExact(db, desired);
    forall x, y | x in out && x in db.nodes && WantsVerdict(db, desired, y) && y !in inFlight && y !in out
      ensures FewerPasses(db, x, y)
    {
      VerifierPair(db, desired, capacity, inFlight, queue, out, x, y);
    }
  }

  ghost predicate FewerPasses(db: Db, x: Label, y: Label)
    requires x in db.nodes && y in db.nodes
  {
    db.nodes[x].passCount < db.nodes[y].passCount || (db.nodes[x].passCount == db.nodes[y].passCount && Leq(x, y))
  }

  lemma VerifierPair(db: Db, desired: int, capacity: nat, inFlight: set<Label>, queue: seq<Label>, out: seq<Label>,
                     x: Label, y: Label)
    requires Queue(MinCount(VerifierCandidates(db, desired)), queue) && Selection(queue, capacity, inFlight, out)
    requires x in out && y in VerifierPool(db, desired) && y !in inFlight && y !in out
    ensures x in db.nodes && FewerPasses(db, x, y)
  {
    VerifierQueue(db, desired);
    SelectedBefore(queue, capacity, inFlight, out, x, y);
    QueueCount(db, desired, x);
    QueueCount(db, desired, y);
  }

  /** The count behind a queue entry is the node's own. */
  lemma QueueCount(db: Db, desired: int, x: Label)
    requires x in VerifierPool(db, desired)
    ensures var count := MinCount(VerifierCandidates(db, desired)); x in count && count[x] == db.nodes[x].passCount
  {
    var count := MinCount(VerifierCandidates(db, desired));
    VerifierQueue(db, desired);
    var c := (x, count[x]);
    var names := SortedLabels(VerifierPool(db, desired));
    var i :| 0 <= i < |names| && VerifierCandidates(db, desired)[i] == c;
  }

  /** The dispatch part of one tick. Precheck never refuses a selected label and no label is
      dispatched twice or while in flight. Each pool with a free worker sends out its first free
      labels in order, so at least one unless all of it is in flight. If nothing is in flight and
      still nothing goes out, every node is finished or an axiom waits for its user. */
  method Tick(db: Db, desired: int, generatorCapacity: int, verifierCapacity: int, inFlight: set<Label>)
    returns (generators: seq<Label>, verifiers: seq<Label>, ghost queue: seq<Label>)
    requires Valid(db)
    ensures Distinct(generators + verifiers) && forall x :: x in generators + verifiers ==> x !in inFlight
    ensures if generatorCapacity > 0
            then Selection(SortedLabels(GeneratorPool(db)), generatorCapacity, inFlight, generators)
            else generators == []
    ensures if verifierCapacity > 0 then && Queue(MinCount(VerifierCandidates(db, desired)), queue)
                                         && Selection(queue, verifierCapacity, inFlight, verifiers)
            else verifiers == []
    ensures forall x :: x in generators ==> x in GeneratorPool(db) && WantsProof(db, x)
    ensures forall x :: x in verifiers ==> x in VerifierPool(db, desired) && WantsVerdict(db, desired, x)
    ensures ProofsInOrder(db, inFlight, generators) && VerdictsInOrder(db, desired, inFlight, verifiers)
    ensures generators == [] <==> generatorCapacity <= 0 || GeneratorPool(db) <= inFlight
    ensures verifiers == [] <==> verifierCapacity <= 0 || VerifierPool(db, desired) <= inFlight
    ensures generators == [] <==> generatorCapacity <= 0 || forall x :: WantsProof(db, x) ==> x in inFlight
    ensures verifiers == [] <==> verifierCapacity <= 0 || forall x :: WantsVerdict(db, desired, x) ==> x in inFlight
    ensures (generatorCapacity > 0 && verifierCapacity > 0 && inFlight == {} && desired >= 1 && generators == []
             && verifiers == [])
            ==> FinishedOrBlocked(db, desired)
  {
    var generatorTargets, verifierTargets;
    generatorTargets := SelectGenerators(db, generatorCapacity, inFlight);
    verifierTargets, queue := SelectVerifiers(db, desired, verifierCapacity, inFlight);
    forall x | x in generatorTargets ensures x !in verifierTargets {
      PoolsDisjoint(db, desired, x);
    }
    PoolsExact(db, desired);
    if generatorCapacity > 0 {
      GeneratorOrder(db, desired, generatorCapacity, inFlight, generatorTargets);
    }
    if verifierCapacity > 0 {
      VerifierOrder(db, desired, verifierCapacity, inFlight, queue, verifierTargets);
    }
    var busy;
    generators, busy := DispatchGenerators(db, generatorTargets, inFlight);
    verifiers, busy := DispatchVerifiers(db, desired, verifierTargets, busy);
    ConcatDistinct(generators, verifiers);
    if generatorCapacity > 0 && verifierCapacity > 0 && inFlight == {} && desired >= 1 && generators == []
       && verifiers == [] {
      EmptyPools(db, desired);
    }
  }

  // ---- idle reason ----

  datatype IdleCode = Busy | InFlightOnly | AllDone | GeneratorBlocked | VerifierBlocked | NeedsUser

  predicate GeneratorStuck(db: Db, x: Label) {
    x in db.nodes && db.nodes[x].passCount == -1 && RequiresProof(db.nodes[x].kind) && !DepsReady(CandidateOf(db, x))
  }

  predicate VerifierStuck(db: Db, desired: int, x: Label) {
    x in db.nodes && 0 <= db.nodes[x].passCount < desired && !DepsStrictlyAhead(CandidateOf(db, x))
  }

  predicate SomeGeneratorStuck(db: Db) {
    exists x :: x in db.nodes && GeneratorStuck(db, x)
  }

  predicate SomeVerifierStuck(db: Db, desired: int) {
    exists x :: x in db.nodes && VerifierStuck(db, desired, x)
  }

  function IdleReason(db: Db, desired: int, inFlight: nat, dispatched: nat): IdleCode {
    if db.nodes == map[] then AllDone
    else if dispatched > 0 then Busy
    else if inFlight > 0 then InFlightOnly
    else if forall x :: x in db.nodes ==> !Unfinished(db, desired, x) then AllDone
    else if SomeGeneratorStuck(db) then GeneratorBlocked
    else if SomeVerifierStuck(db, desired) then VerifierBlocked
    else NeedsUser
  }

  lemma NoneStuck(db: Db, desired: int)
    requires desired >= 1 && forall x :: Unfinished(db, desired, x) ==> UserBlocked(db, x)
    ensures !SomeGeneratorStuck(db) && !SomeVerifierStuck(db, desired)
  {
    if x :| x in db.nodes && (GeneratorStuck(db, x) || VerifierStuck(db, desired, x)) {
      assert Unfinished(db, desired, x);
      assert false;
    }
  }

  lemma StuckOrBlocked(db: Db, desired: int, x: Label)
    requires Valid(db) && Unfinished(db, desired, x) && x !in GeneratorPool(db) && x !in VerifierPool(db, desired)
    ensures GeneratorStuck(db, x) || VerifierStuck(db, desired, x) || UserBlocked(db, x)
  {
    assert RowValid(db.nodes[x]);
    DepsOfCandidate(db, x);
  }

  /** When both pools are empty, "remaining work needs user action" is reported exactly when
      some node is unfinished and every unfinished node is a rejected axiom. */
  lemma NeedsUserIsTrue(db: Db, desired: int, unfinished: Label)
    requires Valid(db) && desired >= 1 && GeneratorPool(db) == {} && VerifierPool(db, desired) == {}
    requires Unfinished(db, desired, unfinished)
    ensures IdleReason(db, desired, 0, 0) == NeedsUser
       <==> forall x :: Unfinished(db, desired, x) ==> UserBlocked(db, x)
  {
    if forall x :: Unfinished(db, desired, x) ==> UserBlocked(db, x) {
      NoneStuck(db, desired);
    } else {
      var x :| Unfinished(db, desired, x) && !UserBlocked(db, x);
      StuckOrBlocked(db, desired, x);
    }
  }

  /** A provable node without a proof, or an open one, that some dependency holds back. */
  ghost predicate ProofHeldBack(db: Db, x: Label) {
    && x in db.nodes && db.nodes[x].passCount == -1
    && !db.nodes[x].kind.Definition? && !db.nodes[x].kind.ExternalTheorem? && !DepsVerified(db, x)
  }

  ghost predicate VerdictHeldBack(db: Db, desired: int, x: Label) {
    x in db.nodes && 0 <= db.nodes[x].passCount < desired && !DepsAhead(db, x)
  }

  /** What each idle reason says about the store. */
  lemma IdleExact(db: Db, desired: int, inFlight: nat, dispatched: nat)
    requires Valid(db)
    ensures var code := IdleReason(db, desired, inFlight, dispatched);
            var finished := forall x :: x in db.nodes ==> db.nodes[x].passCount >= desired;
            var idle := db.nodes != map[] && dispatched == 0 && inFlight == 0 && !finished;
            var proof := exists x :: ProofHeldBack(db, x);
            var verdict := exists x :: VerdictHeldBack(db, desired, x);
            && (code == AllDone <==> db.nodes == map[] || (dispatched == 0 && inFlight == 0 && finished))
            && (code == Busy <==> db.nodes != map[] && dispatched > 0)
            && (code == InFlightOnly <==> db.nodes != map[] && dispatched == 0 && inFlight > 0)
            && (code == GeneratorBlocked <==> idle && proof)
            && (code == VerifierBlocked <==> idle && !proof && verdict)
            && (code == NeedsUser <==> idle && !proof && !verdict)
  {
    HeldBackExact(db, desired);
  }

  lemma HeldBackExact(db: Db, desired: int)
    requires Valid(db)
    ensures SomeGeneratorStuck(db) <==> exists x :: ProofHeldBack(db, x)
    ensures SomeVerifierStuck(db, desired) <==> exists x :: VerdictHeldBack(db, desired, x)
  {
    forall x | x in db.nodes
      ensures GeneratorStuck(db, x) <==> ProofHeldBack(db, x)
      ensures VerifierStuck(db, desired, x) <==> VerdictHeldBack(db, desired, x)
    {
      ReadyExact(db, x);
    }
  }
}
