/** The forwarding protocol between coordinator and librarian as a state machine: APPLY and
    its replies travel through FIFO pipes, replies may be late, duplicated or lost, either
    process may crash between any two transactions, and `rethlas rebuild` may delete the store
    while neither runs (coordinator/main.py, coordinator/children.py,
    coordinator/events_watcher.py, librarian/daemon.py, cli/rebuild.py). An event file is named
    by its position in the log, which stands for its event id and its path. */
module Protocol {
  import opened Invariants
  import opened Projection
  import Rebuild
  import opened Search
  import opened Store

  datatype Reply = Reply(index: nat, result: ApplyResult)

  /** Where a process that owns the store stands. */
  datatype Process =
    | Down
    | Clearing                            // run_rebuild empties knowledge_base/
    | Wiping(found: Db, deleted: nat)     // wipe ran the first deletes
    | Rebuilding(listed: nat, next: nat)  // every file listed after the wipe, in key order
    | Replaying(listed: nat, next: nat)   // _startup_replay over the files listed at its start
    | Ready

  /** Who holds supervise.lock. */
  datatype Owner = Free | Supervise | Tool

  datatype Sys = Sys(
    log: seq<Event>,          // the files under events/
    store: Db,                // what survives a crash
    rebuildFlag: bool,        // rebuild_in_progress.flag
    owner: Owner,
    librarian: Process,
    tool: Process,            // a `rethlas rebuild`
    unsent: Option<Reply>,    // committed, reply not written yet
    inbox: seq<nat>,          // APPLY lines in the stdin pipe
    outbox: seq<Reply>,       // replies in the stdout pipe
    acked: set<nat>,          // EventsWatcher._seen
    pending: seq<nat>,        // what is left of this tick's poll
    waiting: bool,            // an APPLY for pending[0] is out
    corrupt: bool)            // pending_corruption

  /** EventsWatcher.poll: the files below n that were not acked, in key order. */
  function Unacked(n: nat, acked: set<nat>): (q: seq<nat>)
    ensures forall i :: i in q <==> 0 <= i < n && i !in acked
    ensures forall i, j :: 0 <= i < j < |q| ==> q[i] < q[j]
  {
    if n == 0 then []
    else
      var q := Unacked(n - 1, acked);
      assert forall i :: 0 <= i < |q| ==> q[i] in q;
      if n - 1 in acked then q else q + [n - 1]
  }

  // ---- steps ----

  ghost predicate Init(s: Sys) {
    && s.log == [] && s.store == EMPTY_DB && s.owner == Free && s.librarian == Down && s.tool == Down
    && s.unsent == None && s.inbox == [] && s.outbox == []
    && s.acked == {} && s.pending == [] && !s.waiting && !s.corrupt
  }

  /** A producer publishes an event file whose key lies behind all present ones. */
  ghost predicate Arrive(s: Sys, s': Sys, event: Event) {
    InKeyOrder(s.log + [event]) && s' == s.(log := s.log + [event])
  }

  // ---- the coordinator ----

  /** A supervise run starts with nothing acked. */
  ghost predicate SuperviseStarts(s: Sys, s': Sys) {
    && s.owner.Free? && s.librarian.Down?
    && s' == s.(owner := Supervise, acked := {}, pending := [], waiting := false, corrupt := false,
             inbox := [], outbox := [], unsent := None)
  }

  /** It ends or crashes; its librarian may still work off what the pipe holds. */
  ghost predicate SuperviseEnds(s: Sys, s': Sys) {
    && s.owner.Supervise?
    && s' == s.(owner := Free, acked := {}, pending := [], waiting := false, corrupt := false, outbox := [])
  }

  /** The coordinator respawns the librarian with fresh pipes at the start of a tick. */
  ghost predicate Restart(s: Sys, s': Sys) {
    && s.owner.Supervise? && s.librarian.Down? && !s.waiting
    && s' == s.(inbox := [], outbox := [], unsent := None, pending := [],
             librarian := if s.rebuildFlag then Wiping(s.store, 0) else Replaying(|s.log|, 0))
  }

  ghost predicate Poll(s: Sys, s': Sys) {
    && s.owner.Supervise? && !s.corrupt && s.pending == [] && !s.waiting
    && s' == s.(pending := Unacked(|s.log|, s.acked))
  }

  /** The poll meets a file it cannot read (WatcherCorruption): nothing is forwarded or acked. */
  ghost predicate PollFails(s: Sys, s': Sys) {
    s.owner.Supervise? && !s.corrupt && s.pending == [] && !s.waiting && s' == s.(corrupt := true)
  }

  /** LibrarianChild.send; with a dead librarian the pipe breaks and the tick ends. */
  ghost predicate Send(s: Sys, s': Sys) {
    && s.owner.Supervise? && s.pending != [] && !s.waiting
    && if s.librarian.Down? then s' == s.(pending := [])
       else s' == s.(waiting := true, inbox := s.inbox + [s.pending[0]])
  }

  /** One reply read: a stale one is drained, the right one is acked. */
  ghost predicate Receive(s: Sys, s': Sys) {
    && s.owner.Supervise? && s.waiting && s.pending != [] && s.outbox != []
    && var r, rest := s.outbox[0], s.outbox[1..];
    if r.index != s.pending[0] then s' == s.(outbox := rest)
    else
      var got := s.(outbox := rest, waiting := false, acked := s.acked + {r.index}, pending := s.pending[1..]);
      s' == if r.result.Corruption? then got.(corrupt := true, pending := []) else got
  }

  /** recv times out or sees the end of the pipe: the tick ends without an ack. */
  ghost predicate GiveUp(s: Sys, s': Sys) {
    s.owner.Supervise? && s.waiting && s' == s.(waiting := false, pending := [])
  }

  // ---- the librarian ----

  /** _handle_apply up to the commit. */
  ghost predicate Commit(s: Sys, s': Sys) {
    && s.librarian.Ready? && s.unsent == None && s.inbox != [] && s.inbox[0] < |s.log|
    && var (store, result) := Apply(s.store, s.log[s.inbox[0]]);
    s' == s.(store := store, inbox := s.inbox[1..], unsent := Some(Reply(s.inbox[0], result)))
  }

  /** Without a coordinator the reply goes nowhere. */
  ghost predicate Answer(s: Sys, s': Sys) {
    s.unsent.Some? && s' == s.(outbox := if s.owner.Supervise? then s.outbox + [s.unsent.value] else [], unsent := None)
  }

  /** A crash loses the unsent reply and every unread command; replies already written stay readable. */
  ghost predicate Crash(s: Sys, s': Sys) {
    !s.librarian.Down? && s' == s.(librarian := Down, inbox := [], unsent := None)
  }

  /** One durable step of a rebuild or a replay: a committed delete of the wipe, the listing that
      follows it, or one file. */
  ghost predicate Builds(log: seq<Event>, store: Db, p: Process, store': Db, p': Process) {
    match p
    case Wiping(found, n) =>
      if n < WIPE_DELETES then store' == Wiped(found, n + 1) && p' == Wiping(found, n + 1)
      else store' == store && p' == Rebuilding(|log|, 0)
    case Rebuilding(listed, next) => next < listed && PlaysOne(log, store, p, next, store', p')
    case Replaying(listed, next) => next < listed && PlaysOne(log, store, p, next, store', p')
    case _ => false
  }

  /** Corruption halts the process. */
  ghost predicate PlaysOne(log: seq<Event>, store: Db, p: Process, next: nat, store': Db, p': Process)
    requires (p.Rebuilding? || p.Replaying?) && p.next == next
  {
    && next < |log|
    && var (played, result) := Apply(store, log[next]);
    if result.Corruption? then store' == store && p' == Down else store' == played && p' == p.(next := next + 1)
  }

  ghost predicate LibrarianBuilds(s: Sys, s': Sys) {
    && Builds(s.log, s.store, s.librarian, s'.store, s'.librarian)
    && var moved := s.(store := s'.store, librarian := s'.librarian);
    s' == if s'.librarian.Down? then moved.(inbox := [], unsent := None) else moved
  }

  ghost predicate LibrarianBuilt(s: Sys, s': Sys) {
    && (s.librarian.Replaying? || s.librarian.Rebuilding?) && s.librarian.next == s.librarian.listed
    && s' == if s.librarian.Replaying? then s.(librarian := Ready)
             else s.(rebuildFlag := false, librarian := Replaying(|s.log|, 0))
  }

  // ---- rethlas rebuild ----

  /** The flag goes up before anything is deleted. */
  ghost predicate ToolStarts(s: Sys, s': Sys) {
    s.owner.Free? && s.librarian.Down? && s' == s.(owner := Tool, tool := Clearing, rebuildFlag := true)
  }

  /** Files of the store are deleted one by one: what they hold meanwhile is anything. */
  ghost predicate ToolClears(s: Sys, s': Sys, left: Db) {
    s.tool.Clearing? && s' == s.(store := left)
  }

  ghost predicate ToolOpens(s: Sys, s': Sys) {
    s.tool.Clearing? && s' == s.(tool := Wiping(s.store, 0))
  }

  ghost predicate ToolBuilds(s: Sys, s': Sys) {
    && Builds(s.log, s.store, s.tool, s'.store, s'.tool)
    && s' == s.(store := s'.store, tool := s'.tool, owner := if s'.tool.Down? then Free else Tool)
  }

  ghost predicate ToolBuilt(s: Sys, s': Sys) {
    s.tool.Rebuilding? && s.tool.next == s.tool.listed && s' == s.(rebuildFlag := false, tool := Down, owner := Free)
  }

  /** The lock is released and the flag stays. */
  ghost predicate ToolCrash(s: Sys, s': Sys) {
    !s.tool.Down? && s' == s.(tool := Down, owner := Free)
  }

  ghost predicate CoordinatorStep(s: Sys, s': Sys) {
    Poll(s, s') || PollFails(s, s') || Send(s, s') || GiveUp(s, s')
  }

  ghost predicate BuildStep(s: Sys, s': Sys) {
    LibrarianBuilds(s, s') || ToolBuilds(s, s')
  }

  ghost predicate SuperviseTurn(s: Sys, s': Sys) {
    SuperviseStarts(s, s') || SuperviseEnds(s, s') || Restart(s, s')
  }

  ghost predicate LibrarianTurn(s: Sys, s': Sys) {
    Answer(s, s') || Crash(s, s') || LibrarianBuilt(s, s')
  }

  ghost predicate ToolTurn(s: Sys, s': Sys) {
    ToolStarts(s, s') || (exists left :: ToolClears(s, s', left)) || ToolOpens(s, s') || ToolBuilt(s, s')
    || ToolCrash(s, s')
  }

  /** Steps that leave the log alone and play no event. */
  ghost predicate TurnStep(s: Sys, s': Sys) {
    SuperviseTurn(s, s') || LibrarianTurn(s, s') || ToolTurn(s, s')
  }

  ghost predicate Step(s: Sys, s': Sys) {
    || (exists event :: Arrive(s, s', event))
    || CoordinatorStep(s, s') || Receive(s, s') || Commit(s, s') || BuildStep(s, s') || TurnStep(s, s')
  }

  ghost predicate Run(states: seq<Sys>) {
    && states != [] && Init(states[0])
    && forall i :: 0 <= i < |states| - 1 ==> Step(states[i], states[i + 1])
  }

  // ---- replaying a prefix ----

  ghost predicate Admissible(log: seq<Event>) {
    forall i :: 0 <= i < |log| ==> log[i].admissible
  }

  /** A replayed prefix has decided exactly its own events, each under its file's hash. */
  ghost predicate Records(db: Db, log: seq<Event>, k: nat)
    requires k <= |log|
  {
    && (forall i :: 0 <= i < k ==> log[i].id in db.applied && db.applied[log[i].id].sha == log[i].sha)
    && (forall id :: id in db.applied ==> exists i :: 0 <= i < k && log[i].id == id)
  }

  lemma FreshId(db: Db, log: seq<Event>, k: nat)
    requires InKeyOrder(log) && k < |log| && Records(db, log, k)
    ensures log[k].id !in db.applied
  {
    assert forall i :: 0 <= i < k ==> Before(log[i].id, log[k].id);
  }

  /** A first decision adds exactly one record and answers with it. */
  lemma FirstDecision(db: Db, event: Event)
    requires event.admissible && event.id !in db.applied
    ensures var (db', result) := Apply(db, event);
            && db'.applied.Keys == db.applied.Keys + {event.id}
            && (forall id :: id in db.applied ==> db'.applied[id] == db.applied[id])
            && db'.applied[event.id].sha == event.sha && result == ResultOf(db'.applied[event.id])
            && !result.Corruption?
  {
  }

  lemma RecordsStep(db: Db, db': Db, log: seq<Event>, k: nat)
    requires k < |log| && Records(db, log, k) && log[k].id !in db.applied
    requires db'.applied.Keys == db.applied.Keys + {log[k].id} && db'.applied[log[k].id].sha == log[k].sha
    requires forall id :: id in db.applied ==> db'.applied[id] == db.applied[id]
    ensures Records(db', log, k + 1)
  {
    forall id | id in db'.applied ensures exists i :: 0 <= i < k + 1 && log[i].id == id {
      if id == log[k].id {
        assert 0 <= k < k + 1;
      } else {
        assert id in db.applied;
        var i :| 0 <= i < k && log[i].id == id;
        assert 0 <= i < k + 1;
      }
    }
  }

  lemma {:induction false} ReplayRecords(log: seq<Event>, k: nat)
    requires InKeyOrder(log) && k <= |log| && Admissible(log[..k])
    ensures Records(Replay(log[..k]), log, k)
  {
    if k > 0 {
      assert Admissible(log[..k - 1]) by {
        assert forall i :: 0 <= i < k - 1 ==> log[..k - 1][i] == log[..k][i];
      }
      ReplayRecords(log, k - 1);
      ReplayNext(log, k - 1);
      var db := Replay(log[..k - 1]);
      FreshId(db, log, k - 1);
      assert log[..k][k - 1].admissible;
      FirstDecision(db, log[k - 1]);
      RecordsStep(db, Apply(db, log[k - 1]).0, log, k - 1);
    }
  }

  /** Re-applying an event of the replayed prefix changes nothing and repeats its outcome. */
  lemma ReapplyIsIdle(log: seq<Event>, k: nat, i: nat)
    requires InKeyOrder(log) && k <= |log| && Admissible(log[..k]) && i < k
    ensures log[i].id in Replay(log[..k]).applied
    ensures Apply(Replay(log[..k]), log[i]) == (Replay(log[..k]), ResultOf(Replay(log[..k]).applied[log[i].id]))
  {
    ReplayRecords(log, k);
    assert log[..k][i].admissible;
  }

  // ---- the invariant ----

  /** What a reply in transit promises about the store. */
  ghost predicate Honest(s: Sys, k: nat, r: Reply) {
    && r.index < |s.log|
    && (r.result.Corruption? ==> !s.log[r.index].admissible)
    && (!r.result.Corruption? ==>
          r.index < k && s.log[r.index].id in s.store.applied
          && r.result == ResultOf(s.store.applied[s.log[r.index].id]))
  }

  ghost predicate Coordinated(s: Sys, k: nat) {
    && (forall i :: i in s.acked ==> i < |s.log| && (i < k || (s.corrupt && !s.log[i].admissible)))
    && (forall p :: 0 <= p < |s.pending| ==> s.pending[p] < |s.log|)
    && (forall p, j :: 0 <= p < |s.pending| && 0 <= j < s.pending[p] ==> j in s.acked || j in s.pending[..p])
    && (s.corrupt ==> s.pending == [] && !s.waiting)
    && (s.waiting ==> s.pending != [])
  }

  /** One process at a time owns the store, and only a supervise run remembers anything. */
  ghost predicate Owned(s: Sys) {
    && (s.owner.Tool? <==> !s.tool.Down?)
    && (s.owner.Tool? ==> s.librarian.Down? && s.rebuildFlag)
    && (!s.owner.Supervise? ==> s.acked == {} && s.pending == [] && !s.waiting && !s.corrupt && s.outbox == [])
    && !s.tool.Replaying? && !s.tool.Ready? && !s.librarian.Clearing?
    && (s.librarian.Down? ==> s.inbox == [] && s.unsent == None)
  }

  ghost predicate Phase(s: Sys, p: Process, k: nat)
    requires k <= |s.log|
  {
    match p
    case Down => true
    case Clearing => s.rebuildFlag
    case Wiping(found, n) => s.rebuildFlag && n <= WIPE_DELETES && s.store == Wiped(found, n)
    case Rebuilding(listed, next) => s.rebuildFlag && next == k && next <= listed <= |s.log|
                                     && s.store == Replay(s.log[..k])
    case Replaying(listed, next) => !s.rebuildFlag && next <= k && next <= listed <= |s.log|
    case Ready => !s.rebuildFlag
  }

  /** With the flag down the store is the replay of the first k files, and everything acked lies
      among them or corruption is flagged. With the flag up the store may be torn: nothing is
      acked and nothing is answered. In both nothing in transit can make the librarian skip a file. */
  ghost predicate Inv(s: Sys, k: nat) {
    && InKeyOrder(s.log) && k <= |s.log| && Admissible(s.log[..k])
    && Coordinated(s, k) && Owned(s) && Phase(s, s.librarian, k) && Phase(s, s.tool, k)
    && (!s.rebuildFlag ==> s.store == Replay(s.log[..k]))
    && (s.rebuildFlag ==> s.acked == {} && s.outbox == [] && s.unsent == None)
    && (forall i :: i in s.inbox ==> i < |s.log| && (i == 0 || (i <= k && !s.rebuildFlag)))
    && (forall r :: r in s.outbox ==> Honest(s, k, r))
    && (s.unsent.Some? ==> Honest(s, k, s.unsent.value))
  }

  // ---- every step keeps it ----

  lemma PrefixStable(log: seq<Event>, more: seq<Event>, k: nat)
    requires k <= |log|
    ensures (log + more)[..k] == log[..k]
  {
  }

  lemma ArriveKeeps(s: Sys, s': Sys, k: nat, event: Event)
    requires Inv(s, k) && Arrive(s, s', event)
    ensures Inv(s', k)
  {
    PrefixStable(s.log, [event], k);
    assert forall r :: r in s.outbox ==> Honest(s, k, r) && Honest(s', k, r);
  }

  lemma CoordinatorKeeps(s: Sys, s': Sys, k: nat)
    requires Inv(s, k) && CoordinatorStep(s, s')
    ensures Inv(s', k)
  {
    if Poll(s, s') {
      PollKeeps(s, s', k);
    } else if Send(s, s') {
      SendKeeps(s, s', k);
    } else {
      assert forall r :: r in s.outbox ==> Honest(s, k, r) && Honest(s', k, r);
    }
  }

  lemma PollKeeps(s: Sys, s': Sys, k: nat)
    requires Inv(s, k) && Poll(s, s')
    ensures Inv(s', k)
  {
    assert forall r :: r in s.outbox ==> Honest(s, k, r) && Honest(s', k, r);
    forall p | 0 <= p < |s'.pending| ensures s'.pending[p] < |s.log| {
      assert s'.pending[p] in s'.pending;
    }
    UnackedFills(|s.log|, s.acked);
  }

  /** A polled file stands behind every file below it that is not acked. */
  lemma UnackedFills(n: nat, acked: set<nat>)
    ensures var q := Unacked(n, acked); forall p, j :: 0 <= p < |q| && 0 <= j < q[p] ==> j in acked || j in q[..p]
  {
    var q := Unacked(n, acked);
    forall p, j | 0 <= p < |q| && 0 <= j < q[p] ensures j in acked || j in q[..p] {
      assert q[p] in q;
      if j !in acked {
        assert j in q;
        var m :| 0 <= m < |q| && q[m] == j;
        assert m < p;
        assert q[..p][m] == j;
      }
    }
  }

  lemma SendKeeps(s: Sys, s': Sys, k: nat)
    requires Inv(s, k) && Send(s, s')
    ensures Inv(s', k)
  {
    assert forall r :: r in s.outbox ==> Honest(s, k, r) && Honest(s', k, r);
    if !s.librarian.Down? {
      var i := s.pending[0];
      assert s.pending[..0] == [];
      assert i > k ==> k in s.acked;
      assert i > 0 ==> 0 in s.acked;
    }
  }

  /** Acking the first pending file leaves no gap. */
  lemma AckKeepsFilled(q: seq<nat>, acked: set<nat>)
    requires q != [] && forall p, j :: 0 <= p < |q| && 0 <= j < q[p] ==> j in acked || j in q[..p]
    ensures forall p, j :: 0 <= p < |q[1..]| && 0 <= j < q[1..][p] ==> j in acked + {q[0]} || j in q[1..][..p]
  {
    forall p, j | 0 <= p < |q[1..]| && 0 <= j < q[1..][p] ensures j in acked + {q[0]} || j in q[1..][..p] {
      assert q[p + 1] == q[1..][p];
      assert q[..p + 1] == [q[0]] + q[1..][..p];
    }
  }

  lemma ReceiveKeeps(s: Sys, s': Sys, k: nat)
    requires Inv(s, k) && Receive(s, s')
    ensures Inv(s', k)
  {
    var r := s.outbox[0];
    assert r in s.outbox && Honest(s, k, r);
    forall q | q in s'.outbox ensures Honest(s', k, q) {
      assert q in s.outbox && Honest(s, k, q);
    }
    if r.index == s.pending[0] && !r.result.Corruption? {
      AckKeepsFilled(s.pending, s.acked);
    }
  }

  /** What one Apply on the replayed prefix means for records already made. */
  ghost predicate Advances(db: Db, event: Event) {
    var (db', result) := Apply(db, event);
    && (result.Corruption? <==> !event.admissible)
    && (forall id :: id in db.applied ==> id in db'.applied && db'.applied[id] == db.applied[id])
    && (event.admissible ==> event.id in db'.applied && result == ResultOf(db'.applied[event.id]))
  }

  lemma ExtendPrefix(log: seq<Event>, k: nat)
    requires InKeyOrder(log) && k < |log| && Admissible(log[..k]) && log[k].admissible
    ensures Admissible(log[..k + 1]) && Advances(Replay(log[..k]), log[k])
    ensures Apply(Replay(log[..k]), log[k]).0 == Replay(log[..k + 1])
  {
    ReplayNext(log, k);
    ReplayRecords(log, k);
    FreshId(Replay(log[..k]), log, k);
    FirstAdvances(Replay(log[..k]), log[k]);
    AdmissibleNext(log, k);
  }

  lemma AdmissibleNext(log: seq<Event>, k: nat)
    requires k < |log| && Admissible(log[..k]) && log[k].admissible
    ensures Admissible(log[..k + 1])
  {
    assert forall j :: 0 <= j < k ==> log[..k + 1][j] == log[..k][j];
  }

  lemma FirstAdvances(db: Db, event: Event)
    requires event.admissible && event.id !in db.applied
    ensures Advances(db, event)
  {
    FirstDecision(db, event);
  }

  lemma ReapplyAdvances(log: seq<Event>, k: nat, i: nat)
    requires InKeyOrder(log) && k <= |log| && Admissible(log[..k]) && i < k
    ensures Advances(Replay(log[..k]), log[i]) && Apply(Replay(log[..k]), log[i]).0 == Replay(log[..k])
  {
    ReapplyIsIdle(log, k, i);
    assert log[..k][i].admissible;
  }

  /** The librarian's store moves only by replaying the next file of the log. */
  lemma ApplyWithinPrefix(s: Sys, k: nat, i: nat) returns (k': nat)
    requires InKeyOrder(s.log) && k <= |s.log| && Admissible(s.log[..k]) && s.store == Replay(s.log[..k])
    requires i <= k && i < |s.log|
    ensures k <= k' <= |s.log| && Admissible(s.log[..k'])
    ensures Apply(s.store, s.log[i]).0 == Replay(s.log[..k']) && Advances(s.store, s.log[i])
    ensures k' == if i == k && s.log[i].admissible then k + 1 else k
  {
    k' := k;
    if i < k {
      ReapplyAdvances(s.log, k, i);
      assert s.log[..k][i].admissible;
    } else if s.log[i].admissible {
      k' := k + 1;
      ExtendPrefix(s.log, k);
    }
  }

  lemma HonestStays(s: Sys, s': Sys, k: nat, k': nat, r: Reply)
    requires Honest(s, k, r) && k <= k' && s'.log == s.log
    requires forall id :: id in s.store.applied ==>
                            id in s'.store.applied && s'.store.applied[id] == s.store.applied[id]
    ensures Honest(s', k', r)
  {
  }

  lemma CommitKeeps(s: Sys, s': Sys, k: nat) returns (k': nat)
    requires Inv(s, k) && Commit(s, s')
    ensures Inv(s', k')
  {
    var i := s.inbox[0];
    assert i in s.inbox;
    k' := ApplyWithinPrefix(s, k, i);
    forall j | j in s'.inbox ensures j in s.inbox {
    }
    forall r | r in s'.outbox ensures Honest(s', k', r) {
      HonestStays(s, s', k, k', r);
    }
    assert Honest(s', k', s'.unsent.value);
  }

  /** A rebuild starts the prefix anew once its wipe is done, and from then on moves like a replay. */
  lemma PhaseBuilds(s: Sys, s': Sys, k: nat, p: Process, p': Process) returns (k': nat)
    requires InKeyOrder(s.log) && k <= |s.log| && Admissible(s.log[..k]) && Phase(s, p, k)
    requires !s.rebuildFlag ==> s.store == Replay(s.log[..k])
    requires Builds(s.log, s.store, p, s'.store, p') && s'.log == s.log && s'.rebuildFlag == s.rebuildFlag
    ensures k' <= |s.log| && Admissible(s.log[..k']) && Phase(s', p', k') && (k <= k' || s.rebuildFlag)
    ensures !s.rebuildFlag ==> s'.store == Replay(s.log[..k']) && KeepsRecords(s.store, s'.store)
    ensures p'.Clearing? || p'.Ready? ==> p' == p
    ensures p'.Replaying? ==> p.Replaying?
  {
    k' := k;
    match p
    case Wiping(found, n) =>
      if n == WIPE_DELETES {
        k' := 0;
        assert s.log[..0] == [];
      }
    case Rebuilding(listed, next) => k' := ApplyWithinPrefix(s, k, next);
    case Replaying(listed, next) => k' := ApplyWithinPrefix(s, k, next);
    case Down =>
    case Clearing =>
    case Ready =>
  }

  ghost predicate KeepsRecords(db: Db, db': Db) {
    forall id :: id in db.applied ==> id in db'.applied && db'.applied[id] == db.applied[id]
  }

  lemma BuildKeeps(s: Sys, s': Sys, k: nat) returns (k': nat)
    requires Inv(s, k) && BuildStep(s, s')
    ensures Inv(s', k')
  {
    if LibrarianBuilds(s, s') {
      k' := LibrarianBuildKeeps(s, s', k);
    } else {
      k' := ToolBuildKeeps(s, s', k);
    }
  }

  lemma LibrarianBuildKeeps(s: Sys, s': Sys, k: nat) returns (k': nat)
    requires Inv(s, k) && LibrarianBuilds(s, s')
    ensures Inv(s', k')
  {
    k' := PhaseBuilds(s, s', k, s.librarian, s'.librarian);
    forall r | r in s'.outbox ensures Honest(s', k', r) {
      HonestStays(s, s', k, k', r);
    }
  }

  lemma ToolBuildKeeps(s: Sys, s': Sys, k: nat) returns (k': nat)
    requires Inv(s, k) && ToolBuilds(s, s')
    ensures Inv(s', k')
  {
    k' := PhaseBuilds(s, s', k, s.tool, s'.tool);
  }

  lemma TurnKeeps(s: Sys, s': Sys, k: nat)
    requires Inv(s, k) && TurnStep(s, s')
    ensures Inv(s', k)
  {
    if SuperviseTurn(s, s') {
      SuperviseTurnKeeps(s, s', k);
    } else if LibrarianTurn(s, s') {
      LibrarianTurnKeeps(s, s', k);
    } else {
      ToolTurnKeeps(s, s', k);
    }
  }

  lemma SuperviseTurnKeeps(s: Sys, s': Sys, k: nat)
    requires Inv(s, k) && SuperviseTurn(s, s')
    ensures Inv(s', k)
  {
  }

  lemma LibrarianTurnKeeps(s: Sys, s': Sys, k: nat)
    requires Inv(s, k) && LibrarianTurn(s, s')
    ensures Inv(s', k)
  {
    if Answer(s, s') {
      AnswerKeeps(s, s', k);
    } else if LibrarianBuilt(s, s') {
      BuiltKeeps(s, s', k);
    } else {
      assert forall r :: r in s'.outbox ==> Honest(s, k, r) && Honest(s', k, r);
    }
  }

  lemma BuiltKeeps(s: Sys, s': Sys, k: nat)
    requires Inv(s, k) && LibrarianBuilt(s, s')
    ensures Inv(s', k)
  {
    assert forall r :: r in s'.outbox ==> Honest(s, k, r) && Honest(s', k, r);
  }

  lemma AnswerKeeps(s: Sys, s': Sys, k: nat)
    requires Inv(s, k) && Answer(s, s')
    ensures Inv(s', k)
  {
    forall r | r in s'.outbox ensures Honest(s', k, r) {
      assert r in s.outbox || r == s.unsent.value;
    }
  }

  lemma ToolTurnKeeps(s: Sys, s': Sys, k: nat)
    requires Inv(s, k) && ToolTurn(s, s')
    ensures Inv(s', k)
  {
  }

  lemma StepKeeps(s: Sys, s': Sys, k: nat) returns (k': nat)
    requires Inv(s, k) && Step(s, s')
    ensures Inv(s', k')
  {
    k' := k;
    if event :| Arrive(s, s', event) {
      ArriveKeeps(s, s', k, event);
    } else if CoordinatorStep(s, s') {
      CoordinatorKeeps(s, s', k);
    } else if Receive(s, s') {
      ReceiveKeeps(s, s', k);
    } else if Commit(s, s') {
      k' := CommitKeeps(s, s', k);
    } else if BuildStep(s, s') {
      k' := BuildKeeps(s, s', k);
    } else {
      TurnKeeps(s, s', k);
    }
  }

  /** Exactly-once, in-order projection over whole runs: under any timeouts, late, stale or
      duplicate replies, crashes and rebuilds, the durable store is the replay of a prefix of the
      log whenever the rebuild flag is down, and whatever was acked lies in that prefix unless
      corruption has been flagged. While the flag is up, when a wipe may have stopped half way,
      no librarian serves and nothing is acked. */
  lemma {:induction false} RunSafe(states: seq<Sys>) returns (k: nat)
    requires Run(states)
    ensures var s := states[|states| - 1];
            && k <= |s.log|
            && (!s.rebuildFlag ==> s.store == Replay(s.log[..k]) && Valid(s.store))
            && (forall i :: i in s.acked && !s.corrupt ==> i < k)
            && (forall i :: i in s.acked ==> i < k || (i < |s.log| && !s.log[i].admissible))
            && (s.rebuildFlag ==> s.acked == {} && s.outbox == [] && !s.librarian.Ready? && !s.librarian.Replaying?)
            && (s.owner.Tool? ==> s.librarian.Down? && s.rebuildFlag)
    ensures Inv(states[|states| - 1], k)
  {
    var last := |states| - 1;
    if last == 0 {
      k := 0;
      assert states[0].log[..0] == [];
    } else {
      var front := states[..last];
      forall i | 0 <= i < |front| - 1 ensures Step(front[i], front[i + 1]) {
        assert Step(states[i], states[i + 1]);
      }
      var k0 := RunSafe(front);
      assert Step(states[last - 1], states[last - 1 + 1]);
      k := StepKeeps(states[last - 1], states[last], k0);
    }
    ReplayValid(states[last].log[..k]);
  }

  /** Once every file is acked, nothing was corrupt and no rebuild is under way, the store is what
      a rebuild makes of the event files, in whatever order it finds them. */
  lemma AllAckedMeansRebuilt(states: seq<Sys>, files: seq<Event>)
    requires Run(states)
    requires var s := states[|states| - 1];
             && !s.rebuildFlag && !s.corrupt && (forall i :: 0 <= i < |s.log| ==> i in s.acked)
             && multiset(files) == multiset(s.log)
    ensures states[|states| - 1].store == Replay(Rebuild.InKeys(files))
  {
    var s := states[|states| - 1];
    var k := RunSafe(states);
    assert k < |s.log| ==> k in s.acked;
    assert s.log[..|s.log|] == s.log;
    Rebuild.KeyOrderIsSorted(s.log, files);
  }
}
