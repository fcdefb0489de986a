/** Section verification (agents/generation/scripts/verification_aggregation.py and
    verify_sections.py): the provisional sets, invalidation, and promotion to the theorem
    library. Blocks are numbered from 0. */
module SectionVerification {
  import opened Graphs
  import opened Labels

  datatype Block = Block(statementKey: string, verificationKey: string, deps: seq<nat>)

  type Blueprint = seq<Block>

  /** build_dependency_data: dependencies are blocks of the same blueprint. */
  predicate DepsInside(b: Blueprint) {
    forall i: nat, d: nat :: i < |b| && d in b[i].deps ==> d < |b|
  }

  function Citations(b: Blueprint): Graph<nat> {
    set i: nat, d: nat | i < |b| && d in b[i].deps :: (i, d)
  }

  predicate DepsMet(b: Blueprint, i: nat, done: set<nat>)
    requires i < |b|
  {
    forall d :: d in b[i].deps ==> d in done
  }

  function UpTo(n: nat): (s: set<nat>)
    ensures forall x: nat :: x in s <==> x < n
  {
    if n == 0 then {} else UpTo(n - 1) + {n - 1}
  }

  // ---- least closed sets ----

  /** Every eligible block whose dependencies are accepted or in s is in s. */
  ghost predicate ClosedUnderRule(b: Blueprint, accepted: set<nat>, eligible: set<nat>, s: set<nat>) {
    forall i: nat :: i < |b| && i in eligible && DepsMet(b, i, accepted + s) ==> i in s
  }

  ghost predicate InsideAllClosed(b: Blueprint, accepted: set<nat>, eligible: set<nat>, s: set<nat>) {
    forall t :: ClosedUnderRule(b, accepted, eligible, t) ==> s <= t
  }

  /** s is the least set closed under the rule. */
  ghost predicate LeastClosed(b: Blueprint, accepted: set<nat>, eligible: set<nat>, s: set<nat>) {
    ClosedUnderRule(b, accepted, eligible, s) && InsideAllClosed(b, accepted, eligible, s)
  }

  /** There is only one such set, so the order in which blocks are visited does not matter. */
  lemma LeastClosedUnique(b: Blueprint, accepted: set<nat>, eligible: set<nat>, s: set<nat>, t: set<nat>)
    requires LeastClosed(b, accepted, eligible, s) && LeastClosed(b, accepted, eligible, t)
    ensures s == t
  {
  }

  lemma AddForced(b: Blueprint, accepted: set<nat>, eligible: set<nat>, s: set<nat>, i: nat)
    requires InsideAllClosed(b, accepted, eligible, s) && i < |b| && i in eligible && DepsMet(b, i, accepted + s)
    ensures InsideAllClosed(b, accepted, eligible, s + {i})
  {
    forall t | ClosedUnderRule(b, accepted, eligible, t) ensures s + {i} <= t {
      assert DepsMet(b, i, accepted + t);
    }
  }

  /** Members of the least closed set are eligible and rest on accepted or other members. */
  lemma LeastIsSupported(b: Blueprint, accepted: set<nat>, eligible: set<nat>, s: set<nat>)
    requires LeastClosed(b, accepted, eligible, s)
    ensures forall i :: i in s ==> i < |b| && i in eligible && DepsMet(b, i, accepted + s)
  {
    var t := set i: nat | i in s && i < |b| && i in eligible && DepsMet(b, i, accepted + s);
    forall i: nat | i < |b| && i in eligible && DepsMet(b, i, accepted + t) ensures i in t {
      assert DepsMet(b, i, accepted + s);
    }
    assert s <= t;
  }

  // ---- build_current_scheduler_view ----

  datatype PairState = PairState(correctStreak: int, wrongVerifies: int, lastResult: string)

  const NO_PAIR := PairState(0, 0, "")

  function PairOf(current: map<string, PairState>, key: string): PairState {
    if key in current then current[key] else NO_PAIR
  }

  predicate IsWrong(b: Blueprint, current: map<string, PairState>, i: nat)
    requires i < |b|
  {
    PairOf(current, b[i].statementKey).wrongVerifies > 0 && PairOf(current, b[i].statementKey).lastResult == "wrong"
  }

  function AcceptedBlocks(b: Blueprint, keys: set<string>): set<nat> {
    set i: nat | i < |b| && b[i].statementKey in keys
  }

  function WrongBlocks(b: Blueprint, keys: set<string>, current: map<string, PairState>): set<nat> {
    set i: nat | i < |b| && b[i].statementKey !in keys && IsWrong(b, current, i)
  }

  /** Neither accepted nor wrong, and correct the last time. */
  function Eligible(b: Blueprint, keys: set<string>, current: map<string, PairState>): set<nat> {
    set i: nat | i < |b| && b[i].statementKey !in keys && !IsWrong(b, current, i)
                 && PairOf(current, b[i].statementKey).correctStreak > 0
  }

  predicate Covers(order: seq<nat>, n: nat) {
    (forall i :: i in order ==> i < n) && (forall i: nat :: i < n ==> i in order)
  }

  /** A sweep over i would add nothing. */
  ghost predicate Settled(b: Blueprint, keys: set<string>, current: map<string, PairState>, provisional: set<nat>,
                          wrong: set<nat>, i: nat)
    requires i < |b|
  {
    && (i in WrongBlocks(b, keys, current) ==> i in wrong)
    && (i in Eligible(b, keys, current) && DepsMet(b, i, AcceptedBlocks(b, keys) + provisional) ==> i in provisional)
  }

  ghost predicate ViewSoFar(b: Blueprint, keys: set<string>, current: map<string, PairState>, provisional: set<nat>,
                            wrong: set<nat>) {
    && wrong <= WrongBlocks(b, keys, current)
    && provisional <= Eligible(b, keys, current)
    && InsideAllClosed(b, AcceptedBlocks(b, keys), Eligible(b, keys, current), provisional)
  }

  lemma ViewDone(b: Blueprint, keys: set<string>, current: map<string, PairState>, provisional: set<nat>,
                 wrong: set<nat>)
    requires ViewSoFar(b, keys, current, provisional, wrong)
    requires forall i: nat :: i < |b| ==> Settled(b, keys, current, provisional, wrong, i)
    ensures wrong == WrongBlocks(b, keys, current)
    ensures LeastClosed(b, AcceptedBlocks(b, keys), Eligible(b, keys, current), provisional)
  {
    forall i | i in WrongBlocks(b, keys, current) ensures i in wrong {
      assert Settled(b, keys, current, provisional, wrong, i);
    }
    forall i: nat | i < |b| && i in Eligible(b, keys, current) && DepsMet(b, i, AcceptedBlocks(b, keys) + provisional)
      ensures i in provisional
    {
      assert Settled(b, keys, current, provisional, wrong, i);
    }
  }

  /** The fixpoint of build_current_scheduler_view, for blocks swept in any order. */
  method SchedulerView(b: Blueprint, keys: set<string>, current: map<string, PairState>, order: seq<nat>)
    returns (provisional: set<nat>, wrong: set<nat>)
    requires DepsInside(b) && Covers(order, |b|)
    ensures wrong == WrongBlocks(b, keys, current)
    ensures LeastClosed(b, AcceptedBlocks(b, keys), Eligible(b, keys, current), provisional)
    ensures forall i: nat :: i in wrong <==> i < |b| && FoundWrong(b, keys, current, i)
    ensures forall i: nat :: i in provisional <==> i < |b| && HoldsForNow(b, keys, current, provisional, i)
  {
    provisional, wrong := {}, {};
    var changed := true;
    ghost var all := UpTo(|b|);
    ghost var left := all;
    while changed
      invariant ViewSoFar(b, keys, current, provisional, wrong)
      invariant left == all - provisional - wrong
      invariant !changed ==> forall i :: i in order ==> Settled(b, keys, current, provisional, wrong, i)
      decreases left, changed
    {
      changed := false;
      ghost var before := left;
      for k := 0 to |order|
        invariant ViewSoFar(b, keys, current, provisional, wrong)
        invariant left == all - provisional - wrong && left <= before && (changed ==> left < before)
        invariant !changed ==> forall i :: i in order[..k] ==>
                                             i < |b| && Settled(b, keys, current, provisional, wrong, i)
      {
        var i := order[k];
        TakeStep(order, k);
        assert i in order;
        if b[i].statementKey in keys || i in wrong || i in provisional {
          continue;
        }
        assert i in left;
        if IsWrong(b, current, i) {
          wrong, changed := wrong + {i}, true;
          left := left - {i};
          continue;
        }
        if PairOf(current, b[i].statementKey).correctStreak <= 0 {
          continue;
        }
        if forall d :: d in b[i].deps ==> b[d].statementKey in keys || d in provisional {
          assert DepsMet(b, i, AcceptedBlocks(b, keys) + provisional);
          AddForced(b, AcceptedBlocks(b, keys), Eligible(b, keys, current), provisional, i);
          provisional, changed := provisional + {i}, true;
          left := left - {i};
        }
      }
      TakeAll(order);
    }
    ViewDone(b, keys, current, provisional, wrong);
    ViewExact(b, keys, current, provisional);
  }

  /** Not accepted, and the last of its verifications found the block wrong. */
  predicate FoundWrong(b: Blueprint, keys: set<string>, current: map<string, PairState>, i: nat)
    requires i < |b|
  {
    var key := b[i].statementKey;
    key !in keys && key in current && current[key].wrongVerifies >= 1 && current[key].lastResult == "wrong"
  }

  /** Not accepted and not wrong, verified as correct at least once in a row, and resting only on
      blocks that are accepted or hold for now themselves. */
  ghost predicate HoldsForNow(b: Blueprint, keys: set<string>, current: map<string, PairState>, provisional: set<nat>,
                              i: nat)
    requires i < |b|
  {
    var key := b[i].statementKey;
    && key !in keys && key in current && current[key].correctStreak >= 1 && !FoundWrong(b, keys, current, i)
    && forall d :: d in b[i].deps ==> d < |b| && (b[d].statementKey in keys || d in provisional)
  }

  lemma ViewExact(b: Blueprint, keys: set<string>, current: map<string, PairState>, provisional: set<nat>)
    requires DepsInside(b)
    requires LeastClosed(b, AcceptedBlocks(b, keys), Eligible(b, keys, current), provisional)
    ensures forall i: nat :: i in WrongBlocks(b, keys, current) <==> i < |b| && FoundWrong(b, keys, current, i)
    ensures forall i: nat :: i in provisional <==> i < |b| && HoldsForNow(b, keys, current, provisional, i)
  {
    var accepted, eligible := AcceptedBlocks(b, keys), Eligible(b, keys, current);
    LeastIsSupported(b, accepted, eligible, provisional);
    forall i: nat | i < |b| ensures i in provisional <==> HoldsForNow(b, keys, current, provisional, i) {
      RestsExact(b, keys, provisional, i);
    }
  }

  lemma RestsExact(b: Blueprint, keys: set<string>, provisional: set<nat>, i: nat)
    requires DepsInside(b) && i < |b|
    ensures DepsMet(b, i, AcceptedBlocks(b, keys) + provisional)
       <==> forall d :: d in b[i].deps ==> d < |b| && (b[d].statementKey in keys || d in provisional)
  {
  }

  datatype Status = Accepted | Wrong | Provisional | Ready | Blocked

  /** scheduler_status of a row. */
  function StatusOf(b: Blueprint, keys: set<string>, provisional: set<nat>, wrong: set<nat>, i: nat): Status
    requires i < |b|
  {
    if b[i].statementKey in keys then Accepted
    else if i in wrong then Wrong
    else if i in provisional then Provisional
    else if DepsMet(b, i, AcceptedBlocks(b, keys) + provisional) then Ready
    else Blocked
  }

  /** With acyclic citations the view never stalls: while something is unfinished, a block whose
      dependencies are all finished is wrong or ready, and it is not correct already. */
  lemma SomethingToDo(b: Blueprint, keys: set<string>, current: map<string, PairState>, provisional: set<nat>,
                      unfinished: nat) returns (i: nat)
    requires DepsInside(b) && Acyclic(Citations(b)) && unfinished < |b|
    requires LeastClosed(b, AcceptedBlocks(b, keys), Eligible(b, keys, current), provisional)
    requires unfinished !in AcceptedBlocks(b, keys) + provisional
    ensures i < |b| && DepsMet(b, i, AcceptedBlocks(b, keys) + provisional)
    ensures var status := StatusOf(b, keys, provisional, WrongBlocks(b, keys, current), i);
            status == Wrong || (status == Ready && PairOf(current, b[i].statementKey).correctStreak <= 0)
  {
    var done := AcceptedBlocks(b, keys) + provisional;
    var open := set j: nat | j < |b| && j !in done;
    assert unfinished in open;
    i := MinimalExists(Citations(b), open);
    forall d | d in b[i].deps ensures d in done {
      assert (i, d) in Citations(b);
      assert d !in open;
    }
    LeastIsSupported(b, AcceptedBlocks(b, keys), Eligible(b, keys, current), provisional);
  }

  // ---- dependency_closure and compute_invalidated_indices ----

  /** dfs of dependency_closure: adds what current depends on. */
  method Visit(b: Blueprint, current: nat, seen: set<nat>) returns (after: set<nat>)
    requires DepsInside(b) && current < |b| && forall x :: x in seen ==> x < |b|
    ensures seen <= after && forall x :: x in after ==> x < |b|
    ensures forall x :: x in after && x !in seen ==> DependsOn(Citations(b), current, x)
    ensures DepsMet(b, current, after)
    ensures forall x :: x in after && x !in seen ==> DepsMet(b, x, after)
    decreases UpTo(|b|) - seen
  {
    after := seen;
    var deps := b[current].deps;
    for k := 0 to |deps|
      invariant seen <= after && forall x :: x in after ==> x < |b|
      invariant forall x :: x in after && x !in seen ==> DependsOn(Citations(b), current, x)
      invariant forall d :: d in deps[..k] ==> d in after
      invariant forall x :: x in after && x !in seen ==> DepsMet(b, x, after)
    {
      var d := deps[k];
      TakeStep(deps, k);
      if d in after {
        continue;
      }
      assert (current, d) in Citations(b);
      ghost var before := after;
      FewerLeft(|b|, seen, after, d);
      after := Visit(b, d, after + {d});
      StepDepends(Citations(b), current, d, before, after);
    }
    TakeAll(deps);
  }

  lemma FewerLeft(n: nat, seen: set<nat>, after: set<nat>, d: nat)
    requires seen <= after && d !in after && d < n
    ensures UpTo(n) - (after + {d}) < UpTo(n) - seen
  {
    assert d in UpTo(n) - seen;
  }

  lemma StepDepends(g: Graph<nat>, current: nat, d: nat, before: set<nat>, after: set<nat>)
    requires (current, d) in g && forall x :: x in after && x !in before + {d} ==> DependsOn(g, d, x)
    ensures forall x :: x in after && x !in before ==> DependsOn(g, current, x)
  {
    forall x | x in after && x !in before ensures DependsOn(g, current, x) {
      ReachesRefl(g, d);
      if x != d {
        DependsOnIsReaching(g, d, x);
      }
      DependsOnSplit(g, current, x);
    }
  }

  /** dependency_closure: exactly what the block depends on, directly or not. */
  method DependencyClosure(b: Blueprint, i: nat) returns (closure: set<nat>)
    requires DepsInside(b) && i < |b|
    ensures forall x :: x in closure <==> DependsOn(Citations(b), i, x)
  {
    closure := Visit(b, i, {});
    ghost var g := Citations(b);
    forall x | DependsOn(g, i, x) ensures x in closure {
      DependsOnSplit(g, i, x);
      var d :| (i, d) in g && Reaches(g, d, x);
      var w :| WalkBetween(g, w, d, x);
      ClosedUnderEdges(g, closure, w);
    }
  }

  /** reverse_dependencies of x, among the first n blocks. */
  function Downstream(b: Blueprint, x: nat, n: nat): (r: seq<nat>)
    requires n <= |b|
    ensures forall i: nat :: i in r <==> i < n && x in b[i].deps
  {
    if n == 0 then []
    else if x in b[n - 1].deps then Downstream(b, x, n - 1) + [n - 1]
    else Downstream(b, x, n - 1)
  }

  /** compute_invalidated_indices: the failed blocks and everything that rests on one. */
  method ComputeInvalidated(b: Blueprint, roots: seq<nat>) returns (invalidated: set<nat>)
    requires DepsInside(b)
    ensures forall x :: x in invalidated <==> InCone(Citations(b), Elements(roots), x)
  {
    invalidated := {};
    var queue := roots;
    ghost var g, names := Citations(b), Elements(roots);
    ghost var universe := names + UpTo(|b|);
    ConeStart(g, names);
    while queue != []
      invariant invalidated <= universe && Elements(queue) <= universe
      invariant ConeSoFar(g, names, invalidated, Elements(queue))
      decreases universe - invalidated, |queue|
    {
      var i := queue[0];
      assert queue == [i] + queue[1..];
      ghost var pending := Elements(queue);
      queue := queue[1..];
      var more := Downstream(b, i, |b|);
      ConeVisit(g, names, invalidated, pending, Elements(queue), Elements(more), i);
      if i in invalidated {
        continue;
      }
      assert i in universe - invalidated;
      invalidated := invalidated + {i};
      assert Elements(queue + more) == Elements(queue) + Elements(more);
      queue := queue + more;
    }
    ConeDone(g, names, invalidated);
  }

  /** compute_session_sets: provisional blocks never rest on a failed one. */
  method SessionSets(b: Blueprint, keys: set<string>, roots: seq<nat>, correct: set<nat>, order: seq<nat>)
    returns (provisional: set<nat>, invalidated: set<nat>)
    requires DepsInside(b) && Covers(order, |b|)
    ensures forall x :: x in invalidated <==> InCone(Citations(b), Elements(roots), x)
    ensures LeastClosed(b, AcceptedBlocks(b, keys), correct - AcceptedBlocks(b, keys) - invalidated, provisional)
    ensures forall i: nat :: i in provisional <==>
                             && i < |b| && b[i].statementKey !in keys && i in correct && i !in invalidated
                             && forall d :: d in b[i].deps ==>
                                              d < |b| && (b[d].statementKey in keys || d in provisional)
  {
    invalidated := ComputeInvalidated(b, roots);
    provisional := {};
    var changed := true;
    ghost var accepted := AcceptedBlocks(b, keys);
    ghost var eligible := correct - accepted - invalidated;
    while changed
      invariant InsideAllClosed(b, accepted, eligible, provisional)
      invariant !changed ==> forall i :: i in order ==> i < |b| && Steady(b, accepted, eligible, provisional, i)
      decreases UpTo(|b|) - provisional, changed
    {
      changed := false;
      ghost var before := provisional;
      for k := 0 to |order|
        invariant InsideAllClosed(b, accepted, eligible, provisional)
        invariant before <= provisional
        invariant (if changed then UpTo(|b|) - provisional < UpTo(|b|) - before else provisional == before)
        invariant !changed ==> forall i :: i in order[..k] ==> i < |b| && Steady(b, accepted, eligible, provisional, i)
      {
        var i := order[k];
        TakeStep(order, k);
        assert i in order;
        if b[i].statementKey in keys || i in provisional || i in invalidated || i !in correct {
          continue;
        }
        if forall d :: d in b[i].deps ==> b[d].statementKey in keys || d in provisional {
          assert DepsMet(b, i, accepted + provisional);
          AddForced(b, accepted, eligible, provisional, i);
          FewerLeft(|b|, before, provisional, i);
          provisional, changed := provisional + {i}, true;
        }
      }
      TakeAll(order);
    }
    forall i: nat | i < |b| && i in eligible && DepsMet(b, i, accepted + provisional) ensures i in provisional {
      assert Steady(b, accepted, eligible, provisional, i);
    }
    LeastIsSupported(b, accepted, eligible, provisional);
    forall i: nat | i < |b|
      ensures DepsMet(b, i, accepted + provisional)
         <==> forall d :: d in b[i].deps ==> d < |b| && (b[d].statementKey in keys || d in provisional)
    {
      RestsExact(b, keys, provisional, i);
    }
  }

  ghost predicate Steady(b: Blueprint, accepted: set<nat>, eligible: set<nat>, provisional: set<nat>, i: nat)
    requires i < |b|
  {
    i in eligible && DepsMet(b, i, accepted + provisional) ==> i in provisional
  }

  // ---- promotion to the theorem library ----

  datatype Entry = Entry(dependencyKeys: seq<string>, verificationKey: string, verifyCount: int)

  datatype CacheEntry = CacheEntry(statementKey: string, correctStreak: int)

  function KeysOf(b: Blueprint, indices: seq<nat>): (r: seq<string>)
    requires forall i :: i in indices ==> i < |b|
    ensures |r| == |indices|
    ensures forall k :: 0 <= k < |indices| ==> indices[k] in indices && r[k] == b[indices[k]].statementKey
  {
    seq(|indices|, k requires 0 <= k < |indices| => assert indices[k] in indices; b[indices[k]].statementKey)
  }

  function StreakIn(cache: map<string, CacheEntry>, key: string): int {
    if key in cache then cache[key].correctStreak else 0
  }

  /** A text without a cache entry was never verified. */
  predicate VerifiedOften(cache: map<string, CacheEntry>, key: string, needed: int) {
    if key in cache then cache[key].correctStreak >= needed else needed <= 0
  }

  predicate KeysMet(b: Blueprint, i: nat, keys: set<string>)
    requires DepsInside(b) && i < |b|
  {
    forall d :: d in b[i].deps ==> b[d].statementKey in keys
  }

  /** Every block verified often enough whose dependencies are in keys is in keys. */
  ghost predicate ClosedKeys(b: Blueprint, cache: map<string, CacheEntry>, needed: int, keys: set<string>)
    requires DepsInside(b)
  {
    forall i: nat :: i < |b| && StreakIn(cache, b[i].verificationKey) >= needed && KeysMet(b, i, keys) ==>
                       b[i].statementKey in keys
  }

  ghost predicate InsideAllKeys(b: Blueprint, cache: map<string, CacheEntry>, needed: int, start: set<string>,
                                keys: set<string>)
    requires DepsInside(b)
  {
    forall k :: start <= k && ClosedKeys(b, cache, needed, k) ==> keys <= k
  }

  class Library {
    var theorems: map<string, Entry>
    var cache: map<string, CacheEntry>

    constructor (theorems: map<string, Entry>, cache: map<string, CacheEntry>)
      ensures this.theorems == theorems && this.cache == cache
    {
      this.theorems, this.cache := theorems, cache;
    }

    method EnsureCacheEntry(verificationKey: string, statementKey: string) returns (entry: CacheEntry)
      modifies this`cache
      ensures cache == old(cache)[verificationKey := entry]
      ensures entry == CacheEntry(statementKey, StreakIn(old(cache), verificationKey))
    {
      if verificationKey !in cache {
        cache := cache[verificationKey := CacheEntry(statementKey, 0)];
      }
      cache := cache[verificationKey := cache[verificationKey].(statementKey := statementKey)];
      entry := cache[verificationKey];
    }

    /** maybe_promote_to_accepted, with library writes enabled. */
    method MaybePromote(b: Blueprint, i: nat, needed: int)
      requires DepsInside(b) && i < |b|
      modifies this
      ensures forall key :: StreakIn(cache, key) == StreakIn(old(cache), key)
      ensures var promote := StreakIn(old(cache), b[i].verificationKey) >= needed && KeysMet(b, i, old(theorems.Keys));
              if promote then
                && b[i].statementKey in theorems
                && theorems == old(theorems)[b[i].statementKey := theorems[b[i].statementKey]]
                && theorems[b[i].statementKey].dependencyKeys == KeysOf(b, b[i].deps)
                && theorems[b[i].statementKey].verifyCount >= needed
              else theorems == old(theorems)
      ensures b[i].statementKey in theorems && theorems != old(theorems) ==>
                var entry := theorems[b[i].statementKey];
                && entry.verificationKey == b[i].verificationKey && |entry.dependencyKeys| == |b[i].deps|
                && entry.verifyCount == (if b[i].verificationKey in old(cache)
                                         then old(cache)[b[i].verificationKey].correctStreak else 0)
                && forall k :: 0 <= k < |b[i].deps| ==> entry.dependencyKeys[k] == b[b[i].deps[k]].statementKey
      ensures theorems != old(theorems) ==>
                && VerifiedOften(old(cache), b[i].verificationKey, needed)
                && forall d :: d in b[i].deps ==> b[d].statementKey in old(theorems)
    {
      if StreakIn(cache, b[i].verificationKey) < needed {
        return;
      }
      if !(forall d :: d in b[i].deps ==> b[d].statementKey in theorems) {
        return;
      }
      var entry := EnsureCacheEntry(b[i].verificationKey, b[i].statementKey);
      theorems := theorems[b[i].statementKey := Entry(KeysOf(b, b[i].deps), b[i].verificationKey, entry.correctStreak)];
    }

    /** reconcile_promotions_from_cache: the library grows to the least set of statement keys
        closed under promotion; what was there stays, and what is new cites keys that are there. */
    method ReconcilePromotions(b: Blueprint, needed: int, order: seq<nat>)
      requires DepsInside(b) && Covers(order, |b|)
      modifies this
      ensures ClosedKeys(b, old(cache), needed, theorems.Keys)
      ensures InsideAllKeys(b, old(cache), needed, old(theorems.Keys), theorems.Keys)
      ensures forall key :: key in old(theorems) ==> key in theorems && theorems[key] == old(theorems[key])
      ensures forall key :: key in theorems && key !in old(theorems) ==>
                              forall d :: d in theorems[key].dependencyKeys ==> d in theorems
    {
      ghost var start, streaks := theorems, cache;
      var changed := true;
      ghost var wanted := Elements(KeysOf(b, order));
      while changed
        invariant Grown(b, streaks, needed, start, theorems)
        invariant forall key :: StreakIn(cache, key) == StreakIn(streaks, key)
        invariant !changed ==> forall i :: i in order ==> i < |b| && Promoted(b, streaks, needed, theorems.Keys, i)
        decreases wanted - theorems.Keys, changed
      {
        changed := false;
        ghost var before := theorems;
        for k := 0 to |order|
          invariant Grown(b, streaks, needed, start, theorems)
          invariant forall key :: StreakIn(cache, key) == StreakIn(streaks, key)
          invariant if changed then wanted - theorems.Keys < wanted - before.Keys else theorems == before
          invariant !changed ==> forall i :: i in order[..k] ==>
                                               i < |b| && Promoted(b, streaks, needed, theorems.Keys, i)
        {
          var i := order[k];
          TakeStep(order, k);
          assert i in order && KeysOf(b, order)[k] == b[i].statementKey;
          if b[i].statementKey in theorems || StreakIn(cache, b[i].verificationKey) < needed {
            continue;
          }
          if !(forall d :: d in b[i].deps ==> b[d].statementKey in theorems) {
            continue;
          }
          ghost var earlier := theorems;
          MaybePromote(b, i, needed);
          assert b[i].statementKey in wanted - earlier.Keys;
          PromotionGrows(b, streaks, needed, start, earlier, theorems, i);
          changed := true;
        }
        TakeAll(order);
      }
      forall i: nat | i < |b| && StreakIn(streaks, b[i].verificationKey) >= needed && KeysMet(b, i, theorems.Keys)
        ensures b[i].statementKey in theorems
      {
        assert Promoted(b, streaks, needed, theorems.Keys, i);
      }
    }
  }

  ghost predicate Promoted(b: Blueprint, cache: map<string, CacheEntry>, needed: int, keys: set<string>, i: nat)
    requires DepsInside(b) && i < |b|
  {
    StreakIn(cache, b[i].verificationKey) >= needed && KeysMet(b, i, keys) ==> b[i].statementKey in keys
  }

  ghost predicate CitesInside(theorems: map<string, Entry>, key: string)
    requires key in theorems
  {
    forall d :: d in theorems[key].dependencyKeys ==> d in theorems
  }

  ghost predicate Grown(b: Blueprint, cache: map<string, CacheEntry>, needed: int, start: map<string, Entry>,
                        theorems: map<string, Entry>)
    requires DepsInside(b)
  {
    && InsideAllKeys(b, cache, needed, start.Keys, theorems.Keys)
    && (forall key :: key in start ==> key in theorems && theorems[key] == start[key])
    && (forall key :: key in theorems && key !in start ==> CitesInside(theorems, key))
  }

  lemma PromotionGrows(b: Blueprint, cache: map<string, CacheEntry>, needed: int, start: map<string, Entry>,
                       earlier: map<string, Entry>, theorems: map<string, Entry>, i: nat)
    requires DepsInside(b) && i < |b| && Grown(b, cache, needed, start, earlier)
    requires StreakIn(cache, b[i].verificationKey) >= needed && KeysMet(b, i, earlier.Keys)
    requires b[i].statementKey !in earlier && b[i].statementKey in theorems
    requires theorems == earlier[b[i].statementKey := theorems[b[i].statementKey]]
    requires theorems[b[i].statementKey].dependencyKeys == KeysOf(b, b[i].deps)
    ensures Grown(b, cache, needed, start, theorems)
  {
    forall k | start.Keys <= k && ClosedKeys(b, cache, needed, k) ensures theorems.Keys <= k {
      assert earlier.Keys <= k;
      assert KeysMet(b, i, k);
    }
    forall key | key in theorems && key !in start ensures CitesInside(theorems, key) {
      if key == b[i].statementKey {
        forall d | d in theorems[key].dependencyKeys ensures d in theorems {
          var n :| 0 <= n < |b[i].deps| && KeysOf(b, b[i].deps)[n] == d;
          assert b[i].deps[n] in b[i].deps;
        }
      } else {
        assert CitesInside(earlier, key);
      }
    }
  }

  /** Different blocks state different things. */
  ghost predicate KeysDistinct(b: Blueprint) {
    forall i: nat, j: nat :: i < j < |b| ==> b[i].statementKey != b[j].statementKey
  }

  /** Every block whose statement is in the library has its direct dependencies there. */
  ghost predicate Supported(b: Blueprint, keys: set<string>)
    requires DepsInside(b)
  {
    forall i: nat :: i < |b| && b[i].statementKey in keys ==> KeysMet(b, i, keys)
  }

  predicate Justified(b: Blueprint, cache: map<string, CacheEntry>, needed: int, keys: set<string>, key: string)
    requires DepsInside(b)
  {
    exists i: nat :: i < |b| && b[i].statementKey == key && StreakIn(cache, b[i].verificationKey) >= needed
                     && KeysMet(b, i, keys)
  }

  /** Whatever promotion adds is some block's statement, verified often enough and resting on
      statements in the library. */
  lemma PromotedIsJustified(b: Blueprint, cache: map<string, CacheEntry>, needed: int, start: set<string>,
                            keys: set<string>)
    requires DepsInside(b) && start <= keys && ClosedKeys(b, cache, needed, keys)
    requires InsideAllKeys(b, cache, needed, start, keys)
    ensures forall key :: key in keys && key !in start ==> Justified(b, cache, needed, keys, key)
  {
    var t := set key | key in keys && (key in start || Justified(b, cache, needed, keys, key));
    forall i: nat | i < |b| && StreakIn(cache, b[i].verificationKey) >= needed && KeysMet(b, i, t)
      ensures b[i].statementKey in t {
      assert KeysMet(b, i, keys);
    }
    assert keys <= t;
  }

  /** When blocks state different things, promotion keeps the library supported, so everything a
      library statement rests on, directly or not, is in the library too. */
  lemma LibraryRests(b: Blueprint, cache: map<string, CacheEntry>, needed: int, start: set<string>, keys: set<string>,
                     i: nat, x: nat)
    requires DepsInside(b) && KeysDistinct(b) && Supported(b, start)
    requires start <= keys && ClosedKeys(b, cache, needed, keys) && InsideAllKeys(b, cache, needed, start, keys)
    requires i < |b| && b[i].statementKey in keys && DependsOn(Citations(b), i, x)
    ensures Supported(b, keys) && x < |b| && b[x].statementKey in keys
  {
    PromotedIsJustified(b, cache, needed, start, keys);
    forall j: nat | j < |b| && b[j].statementKey in keys ensures KeysMet(b, j, keys) {
      if b[j].statementKey !in start {
        assert Justified(b, cache, needed, keys, b[j].statementKey);
      }
    }
    var inside := AcceptedBlocks(b, keys);
    var w :| WalkBetween(Citations(b), w, i, x) && |w| >= 2;
    forall e | e in Citations(b) && e.0 in inside ensures e.1 in inside {
      assert KeysMet(b, e.0, keys);
    }
    ClosedUnderEdges(Citations(b), inside, w);
  }

  /** What the status of a block says. */
  lemma StatusExact(b: Blueprint, keys: set<string>, provisional: set<nat>, wrong: set<nat>, i: nat)
    requires DepsInside(b) && i < |b|
    ensures var status, key := StatusOf(b, keys, provisional, wrong, i), b[i].statementKey;
            var rests := forall d :: d in b[i].deps ==> d < |b| && (b[d].statementKey in keys || d in provisional);
            && (status == Accepted <==> key in keys)
            && (status == Wrong <==> key !in keys && i in wrong)
            && (status == Provisional <==> key !in keys && i !in wrong && i in provisional)
            && (status == Ready <==> key !in keys && i !in wrong && i !in provisional && rests)
            && (status == Blocked <==> key !in keys && i !in wrong && i !in provisional && !rests)
  {
    RestsExact(b, keys, provisional, i);
  }

  /** The keys a library closed under promotion must have, read off cache and blocks. */
  lemma ClosedKeysExact(b: Blueprint, cache: map<string, CacheEntry>, needed: int, keys: set<string>)
    requires DepsInside(b)
    ensures ClosedKeys(b, cache, needed, keys) <==> forall i: nat :: i < |b| ==> KeptOut(b, cache, needed, keys, i)
  {
    forall i: nat | i < |b| ensures Promoted(b, cache, needed, keys, i) <==> KeptOut(b, cache, needed, keys, i) {
    }
    if ClosedKeys(b, cache, needed, keys) {
      forall i: nat | i < |b| ensures Promoted(b, cache, needed, keys, i) {
      }
    }
    if forall i: nat :: i < |b| ==> KeptOut(b, cache, needed, keys, i) {
      forall i: nat | i < |b| && StreakIn(cache, b[i].verificationKey) >= needed && KeysMet(b, i, keys)
        ensures b[i].statementKey in keys
      {
        assert KeptOut(b, cache, needed, keys, i);
      }
    }
  }

  /** A block is in the library, or it is not verified often enough, or a dependency is missing. */
  predicate KeptOut(b: Blueprint, cache: map<string, CacheEntry>, needed: int, keys: set<string>, i: nat)
    requires DepsInside(b) && i < |b|
  {
    || b[i].statementKey in keys
    || !VerifiedOften(cache, b[i].verificationKey, needed)
    || exists d :: d in b[i].deps && b[d].statementKey !in keys
  }
}
