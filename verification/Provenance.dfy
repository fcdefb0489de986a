/** Where verification counts come from: every pass counted on a node is an applied
    "accepted" verdict that carried exactly the node's current verification hash. */
module Provenance {
  import opened Hashing
  import opened History
  import opened Labels
  import opened Projection

  /** The applied "accepted" verdicts on x, over the whole log, that carried vh. */
  ghost function Passes(log: seq<Event>, x: Label, vh: Hash): nat {
    |Accepted(Carrying(Runs(log, x, 0, |log|), vh))|
  }

  lemma {:induction false} CountIsAccepted(start: int, runs: seq<Run>)
    requires start <= 0
    ensures CountAfter(start, runs) <= |Accepted(runs)|
  {
    if runs != [] {
      CountIsAccepted(start, runs[..|runs| - 1]);
    }
  }

  lemma {:induction false} AcceptedConcat(a: seq<Run>, b: seq<Run>)
    ensures |Accepted(a + b)| == |Accepted(a)| + |Accepted(b)|
  {
    if b == [] {
      assert a + b == a;
    } else {
      AcceptedConcat(a, b[..|b| - 1]);
      assert (a + b)[..|a + b| - 1] == a + b[..|b| - 1];
    }
  }

  /** Verification provenance over whole runs, across revisions, batches and cascades. */
  lemma PassProvenance(log: seq<Event>, x: Label)
    requires x in Replay(log).nodes
    ensures Replay(log).nodes[x].passCount <= Passes(log, x, Replay(log).nodes[x].verificationHash)
  {
    var n, row, since := |log|, Replay(log).nodes[x], SinceRestart(log, x, |log|);
    var earlier, runs := Runs(log, x, 0, since), Runs(log, x, since, n);
    TakeAll(log);
    PassHistory(log, x, n);
    CountIsAccepted(InitialCount(row.kind, row.proof), runs);
    RunsSplit(log, x, 0, since, n);
    CarryingConcat(earlier, runs, row.verificationHash);
    CarryingAll(runs, row.verificationHash);
    AcceptedConcat(Carrying(earlier, row.verificationHash), runs);
  }
}
