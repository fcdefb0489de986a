/** Greedy selection under capacity (coordinator/dispatcher.py). */
module Dispatcher {
  import opened Labels

  /** Order of the verifier queue: fewest passes first, then label. */
  predicate KeyLeq(count: map<Label, int>, a: Label, b: Label)
    requires a in count && b in count
  {
    count[a] < count[b] || (count[a] == count[b] && Leq(a, b))
  }

  ghost predicate Queue(count: map<Label, int>, q: seq<Label>) {
    && (forall x :: x in q <==> x in count)
    && Distinct(q)
    && forall i, j :: 0 <= i <= j < |q| ==> KeyLeq(count, q[i], q[j])
  }

  lemma KeyLeqTrans(count: map<Label, int>, a: Label, b: Label, c: Label)
    requires a in count && b in count && c in count && KeyLeq(count, a, b) && KeyLeq(count, b, c)
    ensures KeyLeq(count, a, c)
  {
    if count[a] == count[b] == count[c] {
      LeqTransitive(a, b, c);
    }
  }

  /** sorted(by_label.items(), key=(pass_count, label)): x moves in before the first larger key. */
  function InsertByKey(count: map<Label, int>, q: seq<Label>, x: Label): seq<Label>
    requires x in count && forall y :: y in q ==> y in count
  {
    if q == [] || KeyLeq(count, x, q[0]) then [x] + q else [q[0]] + InsertByKey(count, q[1..], x)
  }

  lemma {:induction false} InsertMembers(count: map<Label, int>, q: seq<Label>, x: Label)
    requires x in count && forall y :: y in q ==> y in count
    ensures forall y :: y in InsertByKey(count, q, x) <==> y == x || y in q
    ensures Distinct(q) && x !in q ==> Distinct(InsertByKey(count, q, x))
  {
    if q == [] || KeyLeq(count, x, q[0]) {
      if Distinct(q) && x !in q {
        PrependDistinct(x, q);
      }
    } else {
      InsertMembers(count, q[1..], x);
      assert q == [q[0]] + q[1..];
      if Distinct(q) && x !in q {
        PrependDistinct(q[0], InsertByKey(count, q[1..], x));
      }
    }
  }

  ghost predicate Ordered(count: map<Label, int>, q: seq<Label>) {
    && (forall y :: y in q ==> y in count)
    && forall i, j :: 0 <= i <= j < |q| ==> KeyLeq(count, q[i], q[j])
  }

  lemma {:induction false} InsertOrdered(count: map<Label, int>, q: seq<Label>, x: Label)
    requires x in count && Ordered(count, q)
    ensures Ordered(count, InsertByKey(count, q, x))
  {
    LeqTotal(x, x);
    InsertMembers(count, q, x);
    if q == [] {
    } else if KeyLeq(count, x, q[0]) {
      forall j | 0 <= j < |q| ensures KeyLeq(count, x, q[j]) {
        KeyLeqTrans(count, x, q[0], q[j]);
      }
    } else {
      assert forall i :: 0 <= i < |q[1..]| ==> q[1..][i] == q[i + 1];
      InsertOrdered(count, q[1..], x);
      InsertMembers(count, q[1..], x);
      LeqTotal(x, q[0]);
      var rest := InsertByKey(count, q[1..], x);
      forall j | 0 <= j < |rest| ensures KeyLeq(count, q[0], rest[j]) {
        assert rest[j] in rest;
        if rest[j] != x {
          var i :| 0 <= i < |q[1..]| && q[1..][i] == rest[j];
          assert rest[j] == q[i + 1];
        }
      }
    }
  }

  method SortByKey(count: map<Label, int>) returns (q: seq<Label>)
    ensures Queue(count, q)
  {
    q := [];
    var names := SortedLabels(count.Keys);
    var i := 0;
    while i < |names|
      invariant 0 <= i <= |names|
      invariant Ordered(count, q) && Distinct(q) && forall x :: x in q <==> x in names[..i]
    {
      var x := names[i];
      TakeStep(names, i);
      assert x in names && x !in names[..i];
      InsertOrdered(count, q, x);
      InsertMembers(count, q, x);
      q := InsertByKey(count, q, x);
      i := i + 1;
    }
    TakeAll(names);
  }

  /** The entries of a queue that are not busy, in queue order. */
  function Free(q: seq<Label>, busy: set<Label>): seq<Label> {
    if q == [] then []
    else
      var x := q[|q| - 1];
      Free(q[..|q| - 1], busy) + if x in busy then [] else [x]
  }

  lemma FreeStep(q: seq<Label>, i: nat, busy: set<Label>)
    requires i < |q|
    ensures Free(q[..i + 1], busy) == Free(q[..i], busy) + if q[i] in busy then [] else [q[i]]
  {
    assert q[..i + 1][..i] == q[..i];
  }

  lemma {:induction false} FreePrefix(q: seq<Label>, i: nat, busy: set<Label>)
    requires i <= |q|
    ensures Free(q[..i], busy) <= Free(q, busy)
    decreases |q| - i
  {
    if i < |q| {
      FreePrefix(q, i + 1, busy);
      FreeStep(q, i, busy);
    } else {
      TakeAll(q);
    }
  }

  /** out takes the free entries of q in order, as many as the capacity allows; nothing free
      is passed over for something behind it. */
  ghost predicate Selection(q: seq<Label>, capacity: nat, busy: set<Label>, out: seq<Label>) {
    && Distinct(out) && |out| <= capacity && out <= Free(q, busy)
    && (forall x :: x in out ==> x in q && x !in busy)
    && (|out| < capacity ==> forall x :: x in q && x !in busy ==> x in out)
    && (forall i, j :: 0 <= i < j < |q| && q[j] in out && q[i] !in busy ==> q[i] in out)
  }

  method TakeFree(q: seq<Label>, capacity: nat, inFlight: set<Label>) returns (out: seq<Label>)
    requires capacity > 0 && Distinct(q)
    ensures Selection(q, capacity, inFlight, out)
  {
    out := [];
    var busy := inFlight;
    var i := 0;
    while i < |q|
      invariant 0 <= i <= |q|
      invariant Distinct(out) && |out| < capacity
      invariant out == Free(q[..i], inFlight)
      invariant forall x :: x in out <==> x in q[..i] && x !in inFlight
      invariant forall x :: x in busy <==> x in inFlight || x in out
    {
      var x := q[i];
      TakeStep(q, i);
      FreeStep(q, i, inFlight);
      assert x !in q[..i];
      if x !in busy {
        out := out + [x];
        busy := busy + {x};
        if |out| >= capacity {
          PrefixSelection(q, i + 1, capacity, inFlight, out);
          return;
        }
      }
      i := i + 1;
    }
    TakeAll(q);
    PrefixSelection(q, |q|, capacity, inFlight, out);
  }

  lemma PrefixSelection(q: seq<Label>, n: nat, capacity: nat, busy: set<Label>, out: seq<Label>)
    requires n <= |q| && Distinct(q) && Distinct(out) && |out| <= capacity
    requires forall x :: x in out <==> x in q[..n] && x !in busy
    requires |out| == capacity || n == |q|
    requires out == Free(q[..n], busy)
    ensures Selection(q, capacity, busy, out)
  {
    FreePrefix(q, n, busy);
    forall i, j | 0 <= i < j < |q| && q[j] in out && q[i] !in busy ensures q[i] in out {
      var k :| 0 <= k < n && q[..n][k] == q[j];
      assert k == j && q[..n][i] == q[i];
    }
    if n == |q| {
      TakeAll(q);
    }
  }

  method SelectGeneratorTargets(candidates: set<Label>, capacity: int, inFlight: set<Label>) returns (out: seq<Label>)
    ensures capacity <= 0 ==> out == []
    ensures capacity > 0 ==> Selection(SortedLabels(candidates), capacity, inFlight, out)
  {
    if capacity <= 0 {
      return [];
    }
    AscendingDistinct(SortedLabels(candidates));
    out := TakeFree(SortedLabels(candidates), capacity, inFlight);
  }

  lemma AscendingDistinct(q: seq<Label>)
    requires Ascending(q)
    ensures Distinct(q)
  {
  }

  /** Duplicate labels keep their smallest pass count. */
  function MinCount(candidates: seq<(Label, int)>): (count: map<Label, int>)
    ensures forall c :: c in candidates ==> c.0 in count && count[c.0] <= c.1
    ensures forall x :: x in count ==> (x, count[x]) in candidates
  {
    if candidates == [] then map[]
    else
      var c, count := candidates[|candidates| - 1], MinCount(candidates[..|candidates| - 1]);
      assert candidates == candidates[..|candidates| - 1] + [c];
      if c.0 !in count || c.1 < count[c.0] then count[c.0 := c.1] else count
  }

  lemma MinCountStep(candidates: seq<(Label, int)>, i: nat)
    requires i < |candidates|
    ensures MinCount(candidates[..i + 1]) ==
            var c, count := candidates[i], MinCount(candidates[..i]);
            if c.0 !in count || c.1 < count[c.0] then count[c.0 := c.1] else count
  {
    assert candidates[..i + 1][..i] == candidates[..i];
  }

  method SelectVerifierTargets(candidates: seq<(Label, int)>, capacity: int, inFlight: set<Label>)
    returns (out: seq<Label>, ghost queue: seq<Label>)
    ensures capacity <= 0 ==> out == []
    ensures capacity > 0 ==> Queue(MinCount(candidates), queue) && Selection(queue, capacity, inFlight, out)
  {
    queue := [];
    if capacity <= 0 {
      return [], [];
    }
    var byLabel: map<Label, int> := map[];
    var i := 0;
    while i < |candidates|
      invariant 0 <= i <= |candidates|
      invariant byLabel == MinCount(candidates[..i])
    {
      var c := candidates[i];
      MinCountStep(candidates, i);
      if c.0 !in byLabel || c.1 < byLabel[c.0] {
        byLabel := byLabel[c.0 := c.1];
      }
      i := i + 1;
    }
    TakeAll(candidates);
    var q := SortByKey(byLabel);
    queue := q;
    out := TakeFree(q, capacity, inFlight);
  }
}
