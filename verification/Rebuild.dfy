/** rebuild_from_events (librarian/rebuild.py): wipe, then apply every event file in key order. */
module Rebuild {
  import opened Invariants
  import opened Projection
  import opened ProjectorImpl
  import opened Search
  import opened Store

  predicate KeyLeq(a: Event, b: Event) {
    a.id == b.id || Before(a.id, b.id)
  }

  /** The three parts of an event's key, the most significant first. */
  function KeyParts(id: EventId): seq<nat> {
    [id.isoMs, id.sequence, id.uid]
  }

  lemma SamePair(a: nat, b: nat, c: nat, d: nat)
    ensures [a, b] == [c, d] <==> a == c && b == d
    ensures [a] == [c] <==> a == c
  {
    if [a, b] == [c, d] {
      assert [a, b][0] == [c, d][0] && [a, b][1] == [c, d][1];
    }
    if [a] == [c] {
      assert [a][0] == [c][0];
    }
  }

  /** Keys compare at the first part in which they differ. */
  lemma KeyOrderExact(a: EventId, b: EventId)
    ensures Before(a, b) <==>
            exists k :: 0 <= k < 3 && KeyParts(a)[..k] == KeyParts(b)[..k] && KeyParts(a)[k] < KeyParts(b)[k]
  {
    var p, q := KeyParts(a), KeyParts(b);
    assert p[..0] == q[..0];
    assert p[..1] == [a.isoMs] && q[..1] == [b.isoMs];
    assert p[..2] == [a.isoMs, a.sequence] && q[..2] == [b.isoMs, b.sequence];
    assert [a.isoMs, a.sequence] == [b.isoMs, b.sequence] <==> a.isoMs == b.isoMs && a.sequence == b.sequence by {
      SamePair(a.isoMs, a.sequence, b.isoMs, b.sequence);
    }
    if exists k :: 0 <= k < 3 && p[..k] == q[..k] && p[k] < q[k] {
      var k :| 0 <= k < 3 && p[..k] == q[..k] && p[k] < q[k];
      assert k == 0 || k == 1 || k == 2;
    }
    if Before(a, b) {
      var k := if a.isoMs < b.isoMs then 0 else if a.sequence < b.sequence then 1 else 2;
      assert p[..k] == q[..k] && p[k] < q[k];
    }
  }

  function InsertByKey(q: seq<Event>, event: Event): (r: seq<Event>)
    ensures multiset(r) == multiset(q) + multiset{event}
  {
    if q == [] then [event]
    else if KeyLeq(event, q[0]) then [event] + q
    else
      assert q == [q[0]] + q[1..];
      [q[0]] + InsertByKey(q[1..], event)
  }

  /** sorted(files, key=(iso_ms, seq, uid)) */
  function InKeys(files: seq<Event>): (r: seq<Event>)
    ensures multiset(r) == multiset(files)
  {
    if files == [] then []
    else
      assert files == files[..|files| - 1] + [files[|files| - 1]];
      InsertByKey(InKeys(files[..|files| - 1]), files[|files| - 1])
  }

  ghost predicate Rises(q: seq<Event>) {
    forall i, j :: 0 <= i < j < |q| ==> KeyLeq(q[i], q[j])
  }

  lemma {:induction false} InsertRises(q: seq<Event>, event: Event)
    requires Rises(q)
    ensures Rises(InsertByKey(q, event))
  {
    if q != [] && !KeyLeq(event, q[0]) {
      InsertRises(q[1..], event);
      var r := InsertByKey(q[1..], event);
      forall x | x in r ensures KeyLeq(q[0], x) {
        assert x in multiset(r);
        assert q == [q[0]] + q[1..];
      }
    }
  }

  lemma {:induction false} InKeysRises(files: seq<Event>)
    ensures Rises(InKeys(files))
  {
    if files != [] {
      InKeysRises(files[..|files| - 1]);
      InsertRises(InKeys(files[..|files| - 1]), files[|files| - 1]);
    }
  }

  ghost predicate IdsDistinct(q: multiset<Event>) {
    forall x, y :: x in q && y in q && x.id == y.id ==> x == y && q[x] == 1
  }

  /** Event files with different ids have one order only. */
  lemma {:induction false} RisingUnique(a: seq<Event>, b: seq<Event>)
    requires Rises(a) && Rises(b) && multiset(a) == multiset(b) && IdsDistinct(multiset(a))
    ensures a == b
  {
    assert |a| == |multiset(a)| == |multiset(b)| == |b|;
    if a != [] {
      HeadsMeet(a, b);
      assert a == [a[0]] + a[1..] && b == [b[0]] + b[1..];
      assert multiset(a[1..]) == multiset(a) - multiset{a[0]};
      assert multiset(b[1..]) == multiset(b) - multiset{b[0]};
      TailDistinct(a);
      RisingUnique(a[1..], b[1..]);
    }
  }

  lemma HeadsMeet(a: seq<Event>, b: seq<Event>)
    requires Rises(a) && Rises(b) && multiset(a) == multiset(b) && IdsDistinct(multiset(a)) && a != [] && b != []
    ensures a[0] == b[0]
  {
    assert a[0] in multiset(b) && b[0] in multiset(a);
    assert a[0] in b && b[0] in a;
    assert KeyLeq(a[0], b[0]) && KeyLeq(b[0], a[0]);
  }

  lemma TailDistinct(a: seq<Event>)
    requires a != [] && IdsDistinct(multiset(a))
    ensures IdsDistinct(multiset(a[1..]))
  {
    assert a == [a[0]] + a[1..];
    forall x, y | x in multiset(a[1..]) && y in multiset(a[1..]) && x.id == y.id
      ensures x == y && multiset(a[1..])[x] == 1 {
      assert x in multiset(a) && y in multiset(a);
    }
  }

  ghost predicate Outcomes(log: seq<Event>, trail: seq<ApplyResult>) {
    |trail| <= |log| && forall i :: 0 <= i < |trail| ==> trail[i] == OutcomeAt(log, i)
  }

  ghost function OutcomeAt(log: seq<Event>, i: nat): ApplyResult
    requires i < |log|
  {
    Projection.Apply(Replay(log[..i]), log[i]).1
  }

  lemma OutcomesGrow(log: seq<Event>, trail: seq<ApplyResult>, result: ApplyResult)
    requires Outcomes(log, trail) && |trail| < |log| && result == OutcomeAt(log, |trail|)
    ensures Outcomes(log, trail + [result])
  {
  }

  /** The trail of a rebuild: one outcome per event, stopping at the first corrupt one. */
  ghost predicate TrailOf(log: seq<Event>, trail: seq<ApplyResult>) {
    && Outcomes(log, trail)
    && (forall i :: 0 <= i < |trail| - 1 ==> trail[i] != Corruption)
    && (|trail| < |log| ==> trail != [] && trail[|trail| - 1] == Corruption)
  }

  /** Whatever the store held, it ends as the replay of the events in key order. */
  method RebuildFromEvents(projector: Projector, files: seq<Event>) returns (trail: seq<ApplyResult>)
    requires projector.kb.saved == None
    modifies projector.kb
    ensures TrailOf(InKeys(files), trail) && projector.kb.State() == Replay(InKeys(files)[..|trail|])
    ensures projector.kb.saved == None && Valid(projector.kb.State())
  {
    ghost var durable := projector.kb.Wipe();
    ReplayValid([]);
    trail := [];
    var log := InKeys(files);
    assert log[..0] == [];
    while |trail| < |log|
      invariant |trail| <= |log| && projector.kb.saved == None && Valid(projector.kb.State())
      invariant projector.kb.State() == Replay(log[..|trail|])
      invariant Outcomes(log, trail) && forall i :: 0 <= i < |trail| ==> trail[i] != Corruption
    {
      ReplayNext(log, |trail|);
      var result := projector.Apply(log[|trail|]);
      OutcomesGrow(log, trail, result);
      trail := trail + [result];
      if result == Corruption {
        return;
      }
    }
  }

  /** A rebuild does not depend on the order in which the event files are found. */
  lemma RebuildOrderFree(files: seq<Event>, others: seq<Event>)
    requires multiset(files) == multiset(others) && IdsDistinct(multiset(files))
    ensures InKeys(files) == InKeys(others) && Replay(InKeys(files)) == Replay(InKeys(others))
  {
    InKeysRises(files);
    InKeysRises(others);
    RisingUnique(InKeys(files), InKeys(others));
  }

  /** Files that already stand in key order are sorted to themselves. */
  lemma KeyOrderIsSorted(log: seq<Event>, files: seq<Event>)
    requires InKeyOrder(log) && multiset(files) == multiset(log)
    ensures InKeys(files) == log
  {
    InKeysRises(files);
    forall x, y | x in multiset(log) && y in multiset(log) && x.id == y.id ensures x == y && multiset(log)[x] == 1 {
      assert x in log && y in log;
      OnceInOrder(log, x);
    }
    RisingUnique(log, InKeys(files));
  }

  lemma {:induction false} OnceInOrder(log: seq<Event>, x: Event)
    requires InKeyOrder(log) && x in log
    ensures multiset(log)[x] == 1
  {
    assert log == [log[0]] + log[1..];
    if x in log[1..] {
      OnceInOrder(log[1..], x);
      var i :| 0 <= i < |log[1..]| && log[1..][i] == x;
      assert Before(log[0].id, log[i + 1].id);
    }
  }
}
