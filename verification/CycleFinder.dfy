/** The linter's depth-first cycle finder (linter/checks.py, _find_cycle). */
module CycleFinder {
  import opened Graphs
  import opened Kahn
  import opened Labels
  import opened Search

  datatype Color = White | Gray | Black

  type Deps = map<Label, seq<Label>>

  /** Edges between known nodes; a dangling reference is no edge. */
  function KnownEdges(deps: Deps): Graph<Label> {
    set u, v | u in deps && v in deps[u] && v in deps :: (u, v)
  }

  /** One stack frame: a node and how far its dependency list has been read. */
  datatype Frame = Frame(node: Label, next: nat)

  datatype Dfs = Dfs(color: map<Label, Color>, parent: map<Label, Option<Label>>, stack: seq<Frame>)

  ghost predicate FrameOk(deps: Deps, s: Dfs, i: nat)
    requires i < |s.stack|
  {
    var f := s.stack[i];
    && f.node in deps && f.node in s.color && s.color[f.node] == Gray && f.next <= |deps[f.node]|
    // what has been read is finished, except the node right above, which was read last
    && (forall k :: 0 <= k < f.next && deps[f.node][k] in deps ==>
                      deps[f.node][k] in s.color
                      && (s.color[deps[f.node][k]] == Black
                          || (i + 1 < |s.stack| && s.stack[i + 1].node == deps[f.node][k])))
  }

  ghost predicate LinkOk(deps: Deps, s: Dfs, i: nat)
    requires i + 1 < |s.stack|
  {
    && (s.stack[i].node, s.stack[i + 1].node) in KnownEdges(deps)
    && s.stack[i + 1].node in s.parent && s.parent[s.stack[i + 1].node] == Some(s.stack[i].node)
  }

  /** Gray nodes are exactly the stack, parents link it, and the black nodes in the order they
      were finished stand behind everything they depend on. */
  ghost predicate DfsOk(deps: Deps, s: Dfs, finished: seq<Label>) {
    && s.color.Keys == deps.Keys && s.parent.Keys == deps.Keys
    && (forall i :: 0 <= i < |s.stack| ==> FrameOk(deps, s, i))
    && (forall i :: 0 <= i < |s.stack| - 1 ==> LinkOk(deps, s, i))
    && (forall i, j :: 0 <= i < j < |s.stack| ==> s.stack[i].node != s.stack[j].node)
    && (forall x :: x in deps && s.color[x] == Gray ==> exists i :: 0 <= i < |s.stack| && s.stack[i].node == x)
    && (forall x :: x in finished <==> x in deps && s.color[x] == Black)
    && Distinct(finished) && Topological(KnownEdges(deps), finished)
  }

  datatype Found = Exhausted | OnStack(node: Label) | Fresh(node: Label)

  /** Reads on in a dependency list up to the first node that is not finished. */
  method ReadOn(deps: Deps, color: map<Label, Color>, node: Label, next: nat) returns (found: Found, next': nat)
    requires node in deps && color.Keys == deps.Keys && next <= |deps[node]|
    ensures next <= next' <= |deps[node]|
    ensures found.Exhausted? ==>
              && next' == |deps[node]|
              && forall k :: next <= k < next' && deps[node][k] in deps ==> color[deps[node][k]] == Black
    ensures !found.Exhausted? ==> next < next' && deps[node][next' - 1] == found.node && found.node in deps
    ensures !found.Exhausted? ==>
              forall k :: next <= k < next' - 1 && deps[node][k] in deps ==> color[deps[node][k]] == Black
    ensures found.OnStack? ==> color[found.node] == Gray
    ensures found.Fresh? ==> color[found.node] == White
  {
    next' := next;
    while next' < |deps[node]|
      invariant next <= next' <= |deps[node]|
      invariant forall k :: next <= k < next' && deps[node][k] in deps ==> color[deps[node][k]] == Black
    {
      var nxt := deps[node][next'];
      next' := next' + 1;
      if nxt in color {
        if color[nxt] == Gray {
          return OnStack(nxt), next';
        }
        if color[nxt] == White {
          return Fresh(nxt), next';
        }
      }
    }
    found := Exhausted;
  }

  /** Follows parents from the top of the stack back to the gray node that was met again. */
  method TracePath(deps: Deps, s: Dfs, ghost finished: seq<Label>, nxt: Label, ghost j: nat) returns (path: seq<Label>)
    requires DfsOk(deps, s, finished) && j < |s.stack| && s.stack[j].node == nxt
    requires (s.stack[|s.stack| - 1].node, nxt) in KnownEdges(deps)
    ensures ClosedWalk(KnownEdges(deps), path)
  {
    var cur := s.stack[|s.stack| - 1].node;
    var reversed := [nxt];
    ghost var k := |s.stack| - 1;
    while cur != nxt
      invariant j <= k < |s.stack| && cur == s.stack[k].node
      invariant |reversed| == |s.stack| - k && reversed[0] == nxt
      invariant forall i :: 1 <= i < |reversed| ==> reversed[i] == s.stack[|s.stack| - i].node
      decreases k
    {
      assert k > j && LinkOk(deps, s, k - 1);
      reversed := reversed + [cur];
      cur := s.parent[cur].value;
      k := k - 1;
    }
    reversed := reversed + [nxt];
    assert k == j;
    path := Reverse(reversed);
    TraceIsWalk(deps, s, nxt, j, reversed);
  }

  /** The nodes from the top of the stack down to nxt, read backwards, walk round a cycle. */
  lemma TraceIsWalk(deps: Deps, s: Dfs, nxt: Label, j: nat, reversed: seq<Label>)
    requires j < |s.stack| && s.stack[j].node == nxt && (s.stack[|s.stack| - 1].node, nxt) in KnownEdges(deps)
    requires forall i :: 0 <= i < |s.stack| - 1 ==> LinkOk(deps, s, i)
    requires |reversed| == |s.stack| - j + 1 && reversed[0] == nxt
    requires forall i :: 1 <= i < |reversed| ==> reversed[i] == s.stack[|s.stack| - i].node
    ensures ClosedWalk(KnownEdges(deps), Reverse(reversed))
  {
    var path := Reverse(reversed);
    forall i | 0 <= i < |path| - 1 ensures (path[i], path[i + 1]) in KnownEdges(deps) {
      if i < |path| - 2 {
        assert LinkOk(deps, s, j + i);
      }
    }
  }

  function Reverse(q: seq<Label>): (r: seq<Label>)
    ensures |r| == |q| && forall i :: 0 <= i < |q| ==> r[i] == q[|q| - 1 - i]
  {
    seq(|q|, i requires 0 <= i < |q| => q[|q| - 1 - i])
  }

  function Pushed(deps: Deps, s: Dfs, next': nat, nxt: Label): Dfs
    requires s.stack != []
  {
    var top := |s.stack| - 1;
    Dfs(s.color[nxt := Gray], s.parent[nxt := Some(s.stack[top].node)],
        s.stack[top := Frame(s.stack[top].node, next')] + [Frame(nxt, 0)])
  }

  lemma FrameUnder(deps: Deps, s: Dfs, next': nat, nxt: Label, i: nat)
    requires i < |s.stack| && FrameOk(deps, s, i) && nxt in s.color && s.color[nxt] == White
    requires var f := s.stack[|s.stack| - 1];
             && f.node in deps && f.next < next' <= |deps[f.node]| && deps[f.node][next' - 1] == nxt
             && forall k :: f.next <= k < next' - 1 && deps[f.node][k] in deps ==>
                              deps[f.node][k] in s.color && s.color[deps[f.node][k]] == Black
    ensures FrameOk(deps, Pushed(deps, s, next', nxt), i)
  {
  }

  lemma LinkUnder(deps: Deps, s: Dfs, next': nat, nxt: Label, i: nat)
    requires i + 1 < |s.stack| && LinkOk(deps, s, i) && FrameOk(deps, s, i + 1) && nxt in s.color
    requires s.color[nxt] == White
    ensures LinkOk(deps, Pushed(deps, s, next', nxt), i)
  {
  }

  lemma PushKeeps(deps: Deps, s: Dfs, finished: seq<Label>, next': nat, nxt: Label)
    requires DfsOk(deps, s, finished) && s.stack != [] && FrameOk(deps, s, |s.stack| - 1)
    requires var f := s.stack[|s.stack| - 1];
             && f.next < next' <= |deps[f.node]| && deps[f.node][next' - 1] == nxt && nxt in deps
             && s.color[nxt] == White
             && forall k :: f.next <= k < next' - 1 && deps[f.node][k] in deps ==> s.color[deps[f.node][k]] == Black
    ensures DfsOk(deps, Pushed(deps, s, next', nxt), finished)
  {
    var s' := Pushed(deps, s, next', nxt);
    var top := |s.stack| - 1;
    assert FrameOk(deps, s, top);
    forall i | 0 <= i < |s'.stack| ensures FrameOk(deps, s', i) {
      if i <= top {
        FrameUnder(deps, s, next', nxt, i);
      }
    }
    forall i | 0 <= i < |s'.stack| - 1 ensures LinkOk(deps, s', i) {
      if i < top {
        LinkUnder(deps, s, next', nxt, i);
      }
    }
    forall i, j | 0 <= i < j < |s'.stack| ensures s'.stack[i].node != s'.stack[j].node {
      assert FrameOk(deps, s, i);
    }
    forall x | x in deps && s'.color[x] == Gray ensures exists i :: 0 <= i < |s'.stack| && s'.stack[i].node == x {
      if x == nxt {
        assert s'.stack[top + 1].node == x;
      } else {
        var i :| 0 <= i < |s.stack| && s.stack[i].node == x;
        assert s'.stack[i].node == x;
      }
    }
  }

  function Popped(s: Dfs): Dfs
    requires s.stack != []
  {
    var top := |s.stack| - 1;
    s.(color := s.color[s.stack[top].node := Black], stack := s.stack[..top])
  }

  /** A node that has been read to its end joins the finished ones. */
  lemma FinishedKeeps(deps: Deps, s: Dfs, finished: seq<Label>)
    requires s.stack != [] && FrameOk(deps, s, |s.stack| - 1) && s.color.Keys == deps.Keys
    requires var f := s.stack[|s.stack| - 1];
             forall k :: f.next <= k < |deps[f.node]| && deps[f.node][k] in deps ==> s.color[deps[f.node][k]] == Black
    requires (forall x :: x in finished <==> x in deps && s.color[x] == Black)
    requires Distinct(finished) && Topological(KnownEdges(deps), finished)
    ensures var node := s.stack[|s.stack| - 1].node;
            && Distinct(finished + [node]) && Topological(KnownEdges(deps), finished + [node])
            && forall x :: x in finished + [node] <==> x in deps && s.color[node := Black][x] == Black
  {
    var node := s.stack[|s.stack| - 1].node;
    forall d | (node, d) in KnownEdges(deps) ensures d in finished {
      var k :| 0 <= k < |deps[node]| && deps[node][k] == d;
    }
    assert node !in finished;
    TopologicalExtends(KnownEdges(deps), finished, node);
  }

  lemma FrameBelow(deps: Deps, s: Dfs, i: nat)
    requires i + 1 < |s.stack| && FrameOk(deps, s, i) && s.stack[i].node != s.stack[|s.stack| - 1].node
    ensures FrameOk(deps, Popped(s), i)
  {
  }

  lemma PopKeeps(deps: Deps, s: Dfs, finished: seq<Label>)
    requires DfsOk(deps, s, finished) && s.stack != [] && FrameOk(deps, s, |s.stack| - 1)
    requires var f := s.stack[|s.stack| - 1];
             forall k :: f.next <= k < |deps[f.node]| && deps[f.node][k] in deps ==> s.color[deps[f.node][k]] == Black
    ensures DfsOk(deps, Popped(s), finished + [s.stack[|s.stack| - 1].node])
  {
    var top := |s.stack| - 1;
    var node, s' := s.stack[top].node, Popped(s);
    FinishedKeeps(deps, s, finished);
    forall i | 0 <= i < |s'.stack| ensures FrameOk(deps, s', i) {
      FrameBelow(deps, s, i);
    }
    forall i | 0 <= i < |s'.stack| - 1 ensures LinkOk(deps, s', i) {
      assert LinkOk(deps, s, i);
    }
    forall x | x in deps && s'.color[x] == Gray ensures exists i :: 0 <= i < |s'.stack| && s'.stack[i].node == x {
      var i :| 0 <= i < |s.stack| && s.stack[i].node == x;
      assert i < top && s'.stack[i].node == x;
    }
  }

  ghost function Whites(s: Dfs): set<Label> {
    set x | x in s.color && s.color[x] == White
  }

  /** Fewer white nodes, or as many and a shorter stack; the bottom of the stack stays, and what
      leaves the stack is finished. */
  ghost predicate Advances(s: Dfs, finished: seq<Label>, s': Dfs, finished': seq<Label>)
    requires s.stack != []
  {
    && (Whites(s') < Whites(s) || (Whites(s') == Whites(s) && |s'.stack| < |s.stack|))
    && (finished' == finished || finished' == finished + [s.stack[|s.stack| - 1].node])
    && (s'.stack != [] ==> s'.stack[0].node == s.stack[0].node)
    && (s'.stack == [] ==> |s.stack| == 1 && finished' == finished + [s.stack[0].node])
  }

  lemma PushAdvances(deps: Deps, s: Dfs, finished: seq<Label>, next': nat, nxt: Label)
    requires s.stack != [] && nxt in s.color && s.color[nxt] == White
    ensures Advances(s, finished, Pushed(deps, s, next', nxt), finished)
  {
    var s' := Pushed(deps, s, next', nxt);
    assert nxt in Whites(s) && nxt !in Whites(s') && Whites(s') <= Whites(s);
  }

  lemma PopAdvances(s: Dfs, finished: seq<Label>)
    requires s.stack != [] && s.stack[|s.stack| - 1].node in s.color && s.color[s.stack[|s.stack| - 1].node] == Gray
    ensures Advances(s, finished, Popped(s), finished + [s.stack[|s.stack| - 1].node])
  {
    assert Whites(Popped(s)) == Whites(s);
  }

  /** One turn of the loop: read on in the top frame, then report, push or pop. */
  method Step(deps: Deps, s: Dfs, ghost finished: seq<Label>)
    returns (cycle: Option<seq<Label>>, s': Dfs, ghost finished': seq<Label>)
    requires DfsOk(deps, s, finished) && s.stack != []
    ensures cycle.Some? ==> ClosedWalk(KnownEdges(deps), cycle.value)
    ensures cycle.None? ==> DfsOk(deps, s', finished') && Advances(s, finished, s', finished')
  {
    var top := |s.stack| - 1;
    var f := s.stack[top];
    s', finished' := s, finished;
    assert FrameOk(deps, s, top);
    var found, next' := ReadOn(deps, s.color, f.node, f.next);
    match found
    case OnStack(nxt) =>
      ghost var j :| 0 <= j < |s.stack| && s.stack[j].node == nxt;
      var path := TracePath(deps, s, finished, nxt, j);
      cycle := Some(path);
    case Fresh(nxt) =>
      PushKeeps(deps, s, finished, next', nxt);
      PushAdvances(deps, s, finished, next', nxt);
      s', cycle := Pushed(deps, s, next', nxt), None;
    case Exhausted =>
      PopKeeps(deps, s, finished);
      PopAdvances(s, finished);
      s', finished', cycle := Popped(s), finished + [f.node], None;
  }

  /** The depth-first search from one white node: either every node it reaches is finished, or
      it meets a node on its own stack and returns the closed walk. */
  method Visit(deps: Deps, color: map<Label, Color>, parent: map<Label, Option<Label>>, start: Label,
               ghost finished: seq<Label>)
    returns (cycle: Option<seq<Label>>, color': map<Label, Color>, parent': map<Label, Option<Label>>,
             ghost finished': seq<Label>)
    requires DfsOk(deps, Dfs(color, parent, []), finished) && start in deps && color[start] == White
    ensures cycle.Some? ==> ClosedWalk(KnownEdges(deps), cycle.value)
    ensures cycle.None? ==> DfsOk(deps, Dfs(color', parent', []), finished')
    ensures cycle.None? ==> start in finished' && forall x :: x in finished ==> x in finished'
  {
    var s := Dfs(color[start := Gray], parent, [Frame(start, 0)]);
    StartKeeps(deps, color, parent, start, finished);
    cycle, color', parent', finished' := None, color, parent, finished;
    while s.stack != []
      invariant cycle == None && DfsOk(deps, s, finished')
      invariant forall x :: x in finished ==> x in finished'
      invariant if s.stack == [] then start in finished' else s.stack[0].node == start
      decreases Whites(s), |s.stack|
    {
      cycle, s, finished' := Step(deps, s, finished');
      if cycle.Some? {
        return;
      }
    }
    color', parent' := s.color, s.parent;
  }

  lemma StartKeeps(deps: Deps, color: map<Label, Color>, parent: map<Label, Option<Label>>, start: Label,
                   finished: seq<Label>)
    requires DfsOk(deps, Dfs(color, parent, []), finished) && start in deps && color[start] == White
    ensures DfsOk(deps, Dfs(color[start := Gray], parent, [Frame(start, 0)]), finished)
  {
    var s := Dfs(color[start := Gray], parent, [Frame(start, 0)]);
    assert FrameOk(deps, s, 0);
    forall x | x in deps && s.color[x] == Gray ensures exists i :: 0 <= i < |s.stack| && s.stack[i].node == x {
      assert s.stack[0].node == start;
    }
  }

  /** No path is returned exactly when the dependencies among known nodes are acyclic, and a
      returned path is a genuine closed walk along dependencies. */
  method FindCycle(deps: Deps, keys: seq<Label>) returns (cycle: Option<seq<Label>>)
    requires forall x :: x in keys <==> x in deps
    ensures cycle.None? <==> Acyclic(KnownEdges(deps))
    ensures cycle.Some? ==> ClosedWalk(KnownEdges(deps), cycle.value)
  {
    var color: map<Label, Color> := map x | x in deps :: White;
    var parent: map<Label, Option<Label>> := map x | x in deps :: None;
    ghost var finished: seq<Label> := [];
    var i := 0;
    while i < |keys|
      invariant 0 <= i <= |keys|
      invariant DfsOk(deps, Dfs(color, parent, []), finished)
      invariant forall k :: 0 <= k < i ==> keys[k] in finished
    {
      assert keys[i] in keys;
      NoGray(deps, color, parent, finished, keys[i]);
      if color[keys[i]] == White {
        cycle, color, parent, finished := Visit(deps, color, parent, keys[i], finished);
        if cycle.Some? {
          return;
        }
      }
      i := i + 1;
    }
    TopologicalMeansAcyclic(KnownEdges(deps), deps.Keys, finished);
    return None;
  }

  lemma NoGray(deps: Deps, color: map<Label, Color>, parent: map<Label, Option<Label>>, finished: seq<Label>, x: Label)
    requires DfsOk(deps, Dfs(color, parent, []), finished) && x in deps
    ensures color[x] != Gray
  {
  }
}
