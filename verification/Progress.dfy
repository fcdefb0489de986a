/** The forwarding protocol never gets stuck: whatever has happened, if no event file is corrupt then
    the processes can still bring every file into the store and have it acked. */
module Progress {
  import opened Projection
  import opened Protocol
  import opened Search
  import opened Store

  ghost predicate Path<T(!new)>(next: (T, T) -> bool, states: seq<T>) {
    states != [] && forall i :: 0 <= i < |states| - 1 ==> next(states[i], states[i + 1])
  }

  ghost predicate PathBetween<T(!new)>(next: (T, T) -> bool, s: T, t: T) {
    exists states :: Path(next, states) && states[0] == s && states[|states| - 1] == t
  }

  lemma PathsJoin<T(!new)>(next: (T, T) -> bool, s: T, t: T, u: T)
    requires PathBetween(next, s, t) && PathBetween(next, t, u)
    ensures PathBetween(next, s, u)
  {
    var a :| Path(next, a) && a[0] == s && a[|a| - 1] == t;
    var b :| Path(next, b) && b[0] == t && b[|b| - 1] == u;
    var states := a + b[1..];
    forall i | 0 <= i < |states| - 1 ensures next(states[i], states[i + 1]) {
      if i < |a| - 1 {
        assert next(a[i], a[i + 1]);
      } else {
        assert next(b[i - |a| + 1], b[i - |a| + 1 + 1]);
        assert states[i] == b[i - |a| + 1];
      }
    }
    assert states[0] == s;
    assert states[|states| - 1] == u by {
      if |b| > 1 {
        assert states[|states| - 1] == b[1..][|b| - 2];
      }
    }
  }

  lemma PathOf<T(!new)>(next: (T, T) -> bool, s: T, t: T)
    ensures PathBetween(next, s, s)
    ensures next(s, t) ==> PathBetween(next, s, t)
  {
    assert Path(next, [s]);
    if next(s, t) {
      assert Path(next, [s, t]);
    }
  }

  ghost function Steps(): (Sys, Sys) -> bool {
    (s, t) => Step(s, t)
  }

  /** Some course of steps goes from s to t. */
  ghost predicate Leads(s: Sys, t: Sys) {
    PathBetween(Steps(), s, t)
  }

  lemma LeadsNowhere(s: Sys)
    ensures Leads(s, s)
  {
    PathOf(Steps(), s, s);
  }

  lemma LeadsStep(s: Sys, t: Sys)
    requires Step(s, t)
    ensures Leads(s, t)
  {
    PathOf(Steps(), s, t);
  }

  lemma LeadsOn(s: Sys, t: Sys, u: Sys)
    requires Leads(s, t) && Leads(t, u)
    ensures Leads(s, u)
  {
    PathsJoin(Steps(), s, t, u);
  }

  /** One more step of a course that keeps the invariant. */
  lemma StepOn(s: Sys, t: Sys, u: Sys, k: nat) returns (k': nat)
    requires Leads(s, t) && Step(t, u) && Inv(t, k)
    ensures Leads(s, u) && Inv(u, k')
  {
    LeadsStep(t, u);
    LeadsOn(s, t, u);
    k' := StepKeeps(t, u, k);
  }

  // ---- to a fresh supervise run ----

  ghost predicate Quiet(s: Sys) {
    s.owner.Free? && s.librarian.Down? && s.tool.Down?
  }

  lemma ToQuiet(s: Sys, k: nat) returns (t: Sys, k': nat)
    requires Inv(s, k)
    ensures Leads(s, t) && Inv(t, k') && Quiet(t) && t.log == s.log
  {
    LeadsNowhere(s);
    t, k' := s, k;
    if t.owner.Tool? {
      var u := t.(tool := Down, owner := Free);
      assert ToolCrash(t, u);
      k' := StepOn(s, t, u, k');
      t := u;
    }
    if t.owner.Supervise? {
      var u := t.(owner := Free, acked := {}, pending := [], waiting := false, corrupt := false, outbox := []);
      assert SuperviseEnds(t, u);
      k' := StepOn(s, t, u, k');
      t := u;
    }
    if !t.librarian.Down? {
      var u := t.(librarian := Down, inbox := [], unsent := None);
      assert Crash(t, u);
      k' := StepOn(s, t, u, k');
      t := u;
    }
  }

  /** A supervise run that has just spawned its librarian. */
  ghost predicate Spawned(s: Sys) {
    && s.owner.Supervise? && s.acked == {} && s.pending == [] && !s.waiting && !s.corrupt
    && s.inbox == [] && s.outbox == [] && s.unsent == None
  }

  lemma ToSpawned(s: Sys, k: nat) returns (t: Sys, k': nat)
    requires Inv(s, k) && Quiet(s)
    ensures Leads(s, t) && Inv(t, k') && Spawned(t) && t.log == s.log
    ensures t.librarian == if t.rebuildFlag then Wiping(t.store, 0) else Replaying(|t.log|, 0)
  {
    var u := s.(owner := Supervise, acked := {}, pending := [], waiting := false, corrupt := false,
    inbox := [], outbox := [], unsent := None);
    assert SuperviseStarts(s, u);
    LeadsNowhere(s);
    k' := StepOn(s, s, u, k);
    t := u.(librarian := if u.rebuildFlag then Wiping(u.store, 0) else Replaying(|u.log|, 0));
    assert Restart(u, t);
    k' := StepOn(s, u, t, k');
  }

  // ---- rebuilding and replaying ----

  lemma {:induction false} WipeThrough(s: Sys, k: nat) returns (t: Sys, k': nat)
    requires Inv(s, k) && Spawned(s) && s.librarian.Wiping? && s.librarian.deleted <= WIPE_DELETES
    ensures Leads(s, t) && Inv(t, k') && Spawned(t) && t.log == s.log && t.librarian == Rebuilding(|t.log|, 0)
    decreases WIPE_DELETES - s.librarian.deleted
  {
    var found, n := s.librarian.found, s.librarian.deleted;
    LeadsNowhere(s);
    if n < WIPE_DELETES {
      var u := s.(store := Wiped(found, n + 1), librarian := Wiping(found, n + 1));
      assert LibrarianBuilds(s, u);
      var k1 := StepOn(s, s, u, k);
      t, k' := WipeThrough(u, k1);
      LeadsOn(s, u, t);
    } else {
      t := s.(librarian := Rebuilding(|s.log|, 0));
      assert LibrarianBuilds(s, t);
      k' := StepOn(s, s, t, k);
    }
  }

  /** The librarian plays one admissible file. */
  lemma PlayOne(s: Sys, k: nat) returns (t: Sys, k': nat)
    requires Inv(s, k) && Spawned(s) && Admissible(s.log)
    requires (s.librarian.Rebuilding? || s.librarian.Replaying?) && s.librarian.listed == |s.log|
    requires s.librarian.next < s.librarian.listed
    ensures Leads(s, t) && Inv(t, k') && Spawned(t) && t.log == s.log && t.rebuildFlag == s.rebuildFlag
    ensures t.librarian == s.librarian.(next := s.librarian.next + 1)
  {
    var next := s.librarian.next;
    var played := Apply(s.store, s.log[next]).0;
    var k1 := ApplyWithinPrefix(s, k, next);
    t := s.(store := played, librarian := s.librarian.(next := next + 1));
    assert PlaysOne(s.log, s.store, s.librarian, next, t.store, t.librarian);
    assert LibrarianBuilds(s, t);
    LeadsNowhere(s);
    k' := StepOn(s, s, t, k);
  }

  lemma {:induction false} PlayThrough(s: Sys, k: nat) returns (t: Sys, k': nat)
    requires Inv(s, k) && Spawned(s) && Admissible(s.log)
    requires (s.librarian.Rebuilding? || s.librarian.Replaying?) && s.librarian.listed == |s.log|
    requires s.librarian.next <= s.librarian.listed
    ensures Leads(s, t) && Inv(t, k') && Spawned(t) && t.log == s.log && t.rebuildFlag == s.rebuildFlag
    ensures t.librarian == s.librarian.(next := s.librarian.listed)
    decreases s.librarian.listed - s.librarian.next
  {
    LeadsNowhere(s);
    if s.librarian.next == s.librarian.listed {
      t, k' := s, k;
    } else {
      var u, k1 := PlayOne(s, k);
      t, k' := PlayThrough(u, k1);
      LeadsOn(s, u, t);
    }
  }

  /** The librarian serves, and the store holds the whole log. */
  ghost predicate Serving(s: Sys) {
    && s.owner.Supervise? && s.librarian.Ready? && !s.rebuildFlag && !s.corrupt && !s.waiting
    && s.inbox == [] && s.outbox == [] && s.unsent == None && s.store == Replay(s.log)
  }

  lemma ToReplaying(s: Sys, k: nat) returns (t: Sys, k': nat)
    requires Inv(s, k) && Spawned(s) && Admissible(s.log)
    requires s.librarian == if s.rebuildFlag then Wiping(s.store, 0) else Replaying(|s.log|, 0)
    ensures Leads(s, t) && Inv(t, k') && Spawned(t) && t.log == s.log
    ensures !t.rebuildFlag && t.librarian == Replaying(|t.log|, 0)
  {
    LeadsNowhere(s);
    if s.rebuildFlag {
      var u, k1 := WipeThrough(s, k);
      var v, k2 := PlayThrough(u, k1);
      t := v.(rebuildFlag := false, librarian := Replaying(|v.log|, 0));
      LeadsOn(s, u, v);
      assert LibrarianBuilt(v, t);
      k' := StepOn(s, v, t, k2);
    } else {
      t, k' := s, k;
    }
  }

  /** A replay that is through has played the whole log. */
  lemma ReplayedAll(s: Sys, k: nat)
    requires Inv(s, k) && !s.rebuildFlag && s.librarian == Replaying(|s.log|, |s.log|)
    ensures s.store == Replay(s.log)
  {
    assert s.log[..|s.log|] == s.log;
  }

  lemma ToReady(s: Sys, k: nat) returns (t: Sys, k': nat)
    requires Inv(s, k) && Spawned(s) && !s.rebuildFlag && s.librarian == Replaying(|s.log|, |s.log|)
    ensures Leads(s, t) && Inv(t, k') && t == s.(librarian := Ready)
  {
    t := s.(librarian := Ready);
    assert LibrarianBuilt(s, t);
    LeadsNowhere(s);
    k' := StepOn(s, s, t, k);
  }

  lemma ToServing(s: Sys, k: nat) returns (t: Sys, k': nat)
    requires Inv(s, k) && Spawned(s) && Admissible(s.log)
    requires s.librarian == if s.rebuildFlag then Wiping(s.store, 0) else Replaying(|s.log|, 0)
    ensures Leads(s, t) && Inv(t, k') && Serving(t) && t.log == s.log && t.acked == {} && t.pending == []
  {
    var u, k1 := ToReplaying(s, k);
    var v, k2 := PlayThrough(u, k1);
    LeadsOn(s, u, v);
    ReplayedAll(v, k2);
    t, k' := ToReady(v, k2);
    LeadsOn(s, v, t);
  }

  // ---- forwarding ----

  /** The files below n are acked, the others are pending in order. */
  ghost predicate AckedBelow(s: Sys, n: nat) {
    && n <= |s.log| && (forall i :: i in s.acked <==> 0 <= i < n)
    && |s.pending| == |s.log| - n && forall p :: 0 <= p < |s.pending| ==> s.pending[p] == n + p
  }

  lemma {:induction false} UnackedAll(n: nat)
    ensures |Unacked(n, {})| == n && forall p :: 0 <= p < n ==> Unacked(n, {})[p] == p
  {
    if n > 0 {
      UnackedAll(n - 1);
    }
  }

  lemma ToPolled(s: Sys, k: nat) returns (t: Sys, k': nat)
    requires Inv(s, k) && Serving(s) && s.acked == {} && s.pending == []
    ensures Leads(s, t) && Inv(t, k') && Serving(t) && t.log == s.log && AckedBelow(t, 0)
  {
    t := s.(pending := Unacked(|s.log|, s.acked));
    assert Poll(s, t);
    UnackedAll(|s.log|);
    LeadsNowhere(s);
    k' := StepOn(s, s, t, k);
  }

  lemma NoCorruption(recorded: AppliedEvent)
    ensures !ResultOf(recorded).Corruption?
  {
  }

  /** Applying a file of the replayed log again changes nothing and answers without corruption. */
  lemma Reapplied(log: seq<Event>, db: Db, whole: seq<Event>, i: nat)
    requires InKeyOrder(log) && whole == log[..|log|] && Admissible(whole) && i < |log| && db == Replay(whole)
    ensures Apply(db, log[i]).0 == db && !Apply(db, log[i]).1.Corruption?
  {
    ReapplyIsIdle(log, |log|, i);
    NoCorruption(db.applied[log[i].id]);
  }

  ghost predicate SentOne(s: Sys, n: nat) {
    && s.owner.Supervise? && s.librarian.Ready? && !s.rebuildFlag && !s.corrupt && s.waiting
    && s.store == Replay(s.log) && AckedBelow(s, n) && n < |s.log|
  }

  lemma ToSent(s: Sys, k: nat, n: nat) returns (t: Sys, k': nat)
    requires Inv(s, k) && Serving(s) && AckedBelow(s, n) && n < |s.log|
    ensures Leads(s, t) && Inv(t, k') && SentOne(t, n) && t.log == s.log
    ensures t.inbox == [n] && t.outbox == [] && t.unsent == None
  {
    t := s.(waiting := true, inbox := [n]);
    assert s.inbox + [s.pending[0]] == [n];
    assert Send(s, t);
    LeadsNowhere(s);
    k' := StepOn(s, s, t, k);
  }

  lemma ToCommitted(s: Sys, k: nat, n: nat) returns (t: Sys, k': nat)
    requires Inv(s, k) && SentOne(s, n) && Admissible(s.log) && s.inbox == [n] && s.outbox == [] && s.unsent == None
    ensures Leads(s, t) && Inv(t, k') && SentOne(t, n) && t.log == s.log
    ensures t.inbox == [] && t.outbox == [] && t.unsent.Some? && t.unsent.value.index == n
    ensures !t.unsent.value.result.Corruption?
  {
    assert s.log[..|s.log|] == s.log;
    Reapplied(s.log, s.store, s.log, n);
    t := s.(inbox := [], unsent := Some(Reply(n, Apply(s.store, s.log[n]).1)));
    assert s.inbox[1..] == [];
    assert Commit(s, t);
    LeadsNowhere(s);
    k' := StepOn(s, s, t, k);
  }

  lemma ToAnswered(s: Sys, k: nat, n: nat) returns (t: Sys, k': nat)
    requires Inv(s, k) && SentOne(s, n) && s.inbox == [] && s.outbox == [] && s.unsent.Some?
    ensures Leads(s, t) && Inv(t, k') && SentOne(t, n) && t.log == s.log
    ensures t.inbox == [] && t.outbox == [s.unsent.value] && t.unsent == None
  {
    t := s.(outbox := [s.unsent.value], unsent := None);
    assert s.outbox + [s.unsent.value] == [s.unsent.value];
    assert Answer(s, t);
    LeadsNowhere(s);
    k' := StepOn(s, s, t, k);
  }

  lemma AckedNext(s: Sys, t: Sys, n: nat)
    requires AckedBelow(s, n) && n < |s.log| && t.log == s.log
    requires t.acked == s.acked + {n} && t.pending == s.pending[1..]
    ensures AckedBelow(t, n + 1)
  {
    assert forall p :: 0 <= p < |t.pending| ==> t.pending[p] == s.pending[p + 1];
  }

  lemma ToAcked(s: Sys, k: nat, n: nat) returns (t: Sys, k': nat)
    requires Inv(s, k) && SentOne(s, n) && s.inbox == [] && s.unsent == None
    requires |s.outbox| == 1 && s.outbox[0].index == n && !s.outbox[0].result.Corruption?
    ensures Leads(s, t) && Inv(t, k') && Serving(t) && t.log == s.log && AckedBelow(t, n + 1)
  {
    t := s.(outbox := [], waiting := false, acked := s.acked + {n}, pending := s.pending[1..]);
    assert s.outbox[1..] == [];
    assert Receive(s, t);
    AckedNext(s, t, n);
    LeadsNowhere(s);
    k' := StepOn(s, s, t, k);
  }

  /** One file is sent, committed, answered and acked. */
  lemma ForwardOne(s: Sys, k: nat, n: nat) returns (t: Sys, k': nat)
    requires Inv(s, k) && Serving(s) && AckedBelow(s, n) && n < |s.log| && Admissible(s.log)
    ensures Leads(s, t) && Inv(t, k') && Serving(t) && t.log == s.log && AckedBelow(t, n + 1)
  {
    var sent, k1 := ToSent(s, k, n);
    var committed, k2 := ToCommitted(sent, k1, n);
    LeadsOn(s, sent, committed);
    var answered, k3 := ToAnswered(committed, k2, n);
    LeadsOn(s, committed, answered);
    t, k' := ToAcked(answered, k3, n);
    LeadsOn(s, answered, t);
  }

  lemma {:induction false} ForwardAll(s: Sys, k: nat, n: nat) returns (t: Sys, k': nat)
    requires Inv(s, k) && Serving(s) && AckedBelow(s, n) && Admissible(s.log)
    ensures Leads(s, t) && Inv(t, k') && Serving(t) && t.log == s.log && AckedBelow(t, |t.log|)
    decreases |s.log| - n
  {
    LeadsNowhere(s);
    if n == |s.log| {
      t, k' := s, k;
    } else {
      var u, k1 := ForwardOne(s, k, n);
      t, k' := ForwardAll(u, k1, n + 1);
      LeadsOn(s, u, t);
    }
  }

  /** From every state of every run, with crashes, torn wipes and lost replies behind it, the system
      can go on to a state where every file is in the store and acked, as long as none is corrupt. */
  lemma NeverStuck(states: seq<Sys>) returns (t: Sys)
    requires Protocol.Run(states) && Admissible(states[|states| - 1].log)
    ensures Leads(states[|states| - 1], t) && t.log == states[|states| - 1].log
    ensures !t.corrupt && !t.rebuildFlag && t.librarian.Ready? && t.store == Replay(t.log)
    ensures forall i :: 0 <= i < |t.log| ==> i in t.acked
  {
    var s := states[|states| - 1];
    var k := RunSafe(states);
    var quiet, k1 := ToQuiet(s, k);
    var spawned, k2 := ToSpawned(quiet, k1);
    LeadsOn(s, quiet, spawned);
    var serving, k3 := ToServing(spawned, k2);
    LeadsOn(s, spawned, serving);
    var polled, k4 := ToPolled(serving, k3);
    LeadsOn(s, serving, polled);
    var k5;
    t, k5 := ForwardAll(polled, k4, 0);
    LeadsOn(s, polled, t);
  }
}
