/** The first loop of `path_to`: breadth first from a node until one without outgoing edges, the
    edges of a node taken in the order of their keys. Nodes leave the queue in the order of their
    tree paths, so the search ends at the sink whose path comes first. */
module BreadthFirst {
  import opened GraphPaths
  import opened Shortlex

  /** How each discovered node was reached. */
  type BackLinks<!N, E> = map<N, (N, E)>

  /** The path by which each node was first reached. */
  type Tree<!N> = map<N, seq<N>>

  predicate IsSink<N(==), E>(out: Adjacency<N, E>, n: N) {
    out(n).Keys == {}
  }

  // ---- Paths from the start -------------------------------------------------

  ghost predicate StartPath<N(!new), E>(out: Adjacency<N, E>, start: N, p: seq<N>) {
    IsPath(out, p) && p[0] == start
  }

  ghost predicate SinkPath<N(!new), E>(out: Adjacency<N, E>, start: N, p: seq<N>) {
    StartPath(out, start, p) && IsSink(out, p[|p| - 1])
  }

  /** A path from the start to a node with an edge back to it. */
  ghost predicate CyclePath<N(!new), E>(out: Adjacency<N, E>, start: N, p: seq<N>) {
    StartPath(out, start, p) && Edge(out, p[|p| - 1], start)
  }

  // ---- What the search knows ----------------------------------------------

  /** Each discovered node was reached by an edge from another one, and its path is one node longer. */
  ghost predicate Linked<N(!new), E>(out: Adjacency<N, E>, start: N, back: BackLinks<N, E>, tree: Tree<N>) {
    && tree.Keys == back.Keys + {start} && tree[start] == [start]
    && (forall c <- back :: back[c].0 in tree && Edge(out, back[c].0, c) && back[c].1 == out(back[c].0)[c])
    && (forall c <- back :: c == start || tree[c] == tree[back[c].0] + [c])
  }

  /** The search between two nodes: the tree, the nodes followed, the paths by which the queue's nodes
      were put there, and that of the last node taken off. A cycle may queue the start again. */
  datatype Sweep<!N> = Sweep(tree: Tree<N>, done: set<N>, paths: seq<seq<N>>, current: seq<N>)

  /** The nodes whose edges were followed: none is a sink, and their successors are linked, by paths
      that come no later than the one through this node. */
  ghost predicate Followed<N(!new), E>(out: Adjacency<N, E>, less: (N, N) -> bool, back: BackLinks<N, E>, s: Sweep<N>) {
    && s.done <= s.tree.Keys
    && (forall u <- s.done :: !IsSink(out, u))
    && (forall u, v | u in s.done && Edge(out, u, v) ::
          v in back && v in s.tree && AtMost(less, s.tree[v], s.tree[u] + [v]))
  }

  /** No longer than the current path, or one node longer than a path that comes no later. */
  ghost predicate Fits<N>(less: (N, N) -> bool, p: seq<N>, current: seq<N>) {
    |p| <= |current| || (|p| == |current| + 1 && AtMost(less, p[..|current|], current))
  }

  /** The queue in the order of its paths, all of them after the current one. */
  ghost predicate Lined<N(!new)>(less: (N, N) -> bool, start: N, queue: seq<N>, s: Sweep<N>) {
    && |s.paths| == |queue|
    && (forall i | 0 <= i < |queue| ::
          queue[i] in s.tree && s.paths[i] != [] && s.paths[i][|s.paths[i]| - 1] == queue[i])
    && (forall i | 0 <= i < |queue| :: s.paths[i] == s.tree[queue[i]] || (queue[i] == start && start in s.done))
    && (forall i | 0 <= i < |queue| :: Before(less, s.current, s.paths[i]) && Fits(less, s.paths[i], s.current))
    && (forall i, j | 0 <= i < j < |queue| :: Before(less, s.paths[i], s.paths[j]))
    && (forall x <- s.tree :: s.tree[x] != [] && s.tree[x][|s.tree[x]| - 1] == x && Fits(less, s.tree[x], s.current))
  }

  /** Every discovered node was followed or waits in the queue. */
  ghost predicate AllPending<N(!new)>(s: Sweep<N>) {
    forall x <- s.tree :: x in s.done || s.tree[x] in s.paths
  }

  // ---- Following the edges of one node ---------------------------------------

  /** While the edges of `p` are followed; `known` was in the tree before. */
  ghost predicate Following<N(!new), E>(out: Adjacency<N, E>, less: (N, N) -> bool, start: N, p: N, known: Tree<N>,
                                        back: BackLinks<N, E>, queue: seq<N>, s: Sweep<N>) {
    && Linked(out, start, back, s.tree) && Lined(less, start, queue, s) && AllPending(s)
    && (forall x <- known :: x in s.tree && s.tree[x] == known[x])
    && p in known && p in s.done && start in s.done
    && (known[p] == s.current || (s.tree == known && out(p).Keys <= back.Keys))
  }

  /** Successors queued so far come before those still to do. */
  ghost predicate Ascending<N(!new)>(less: (N, N) -> bool, s: Sweep<N>, todo: set<N>) {
    forall c, d | s.current + [c] in s.paths && d in todo :: less(c, d)
  }

  lemma FitsBefore<N(!new)>(less: (N, N) -> bool, q: seq<N>, current: seq<N>, child: N)
    requires StrictOrder(less) && Fits(less, q, current) && q != []
    requires |q| == |current| + 1 && q[..|current|] == current ==> less(q[|current|], child)
    ensures Before(less, q, current + [child])
  {
    if |q| == |current| + 1 {
      assert q == q[..|current|] + [q[|current|]];
      BeforeLonger(less, q[..|current|], q[|current|], current, child);
    }
  }

  /** The queue grows by a successor of the current node. */
  lemma LinedMore<N(!new)>(less: (N, N) -> bool, start: N, queue: seq<N>, s: Sweep<N>, tree': Tree<N>, todo: set<N>,
                           child: N)
    requires StrictOrder(less) && Lined(less, start, queue, s) && Ascending(less, s, todo) && child in todo
    requires if child == start then tree' == s.tree && start in s.tree && start in s.done
             else child !in s.tree && tree' == s.tree[child := s.current + [child]]
    ensures Lined(less, start, queue + [child], s.(tree := tree', paths := s.paths + [s.current + [child]]))
  {
    var path := s.current + [child];
    assert path[..|s.current|] == s.current && path[|path| - 1] == child;
    forall i | 0 <= i < |queue| ensures Before(less, s.paths[i], path) {
      var q := s.paths[i];
      if |q| == |s.current| + 1 && q[..|s.current|] == s.current {
        assert q == s.current + [q[|s.current|]] && q in s.paths;
      }
      FitsBefore(less, q, s.current, child);
    }
  }

  lemma PendingMore<N(!new)>(s: Sweep<N>, child: N, path: seq<N>)
    requires AllPending(s)
    ensures AllPending(s.(paths := s.paths + [path]))
    ensures AllPending(s.(tree := s.tree[child := path], paths := s.paths + [path]))
  {
  }

  lemma AscendingMore<N(!new)>(less: (N, N) -> bool, s: Sweep<N>, tree': Tree<N>, todo: set<N>, child: N)
    requires Ascending(less, s, todo) && child in todo && forall d <- todo :: d == child || less(child, d)
    ensures Ascending(less, s.(tree := tree', paths := s.paths + [s.current + [child]]), todo - {child})
  {
    forall c, d | s.current + [c] in s.paths + [s.current + [child]] && d in todo - {child} ensures less(c, d) {
      if s.current + [c] !in s.paths {
        assert (s.current + [c])[|s.current|] == (s.current + [child])[|s.current|];
      }
    }
  }

  lemma LinkedMore<N(!new), E>(out: Adjacency<N, E>, start: N, back: BackLinks<N, E>, tree: Tree<N>, p: N, child: N)
    requires Linked(out, start, back, tree) && p in tree && child in out(p) && child !in back
    ensures Linked(out, start, back[child := (p, out(p)[child])],
                   if child == start then tree else tree[child := tree[p] + [child]])
  {
    assert Edge(out, p, child);
    hide Edge;
  }

  lemma FollowEdge<N(!new), E>(out: Adjacency<N, E>, less: (N, N) -> bool, start: N, p: N, known: Tree<N>,
                               back: BackLinks<N, E>, queue: seq<N>, s: Sweep<N>, todo: set<N>, child: N)
    requires StrictOrder(less) && Following(out, less, start, p, known, back, queue, s) && Ascending(less, s, todo)
    requires child in todo && child in out(p) && child !in back
    ensures child == start || child !in s.tree
    ensures var tree' := if child == start then s.tree else s.tree[child := s.current + [child]];
            Following(out, less, start, p, known, back[child := (p, out(p)[child])], queue + [child],
                      s.(tree := tree', paths := s.paths + [s.current + [child]]))
  {
    var tree' := if child == start then s.tree else s.tree[child := s.current + [child]];
    assert s.tree.Keys == back.Keys + {start};
    hide Linked, Lined, AllPending, Ascending, StrictOrder;
    LinkedMore(out, start, back, s.tree, p, child);
    LinedMore(less, start, queue, s, tree', todo, child);
    PendingMore(s, child, s.current + [child]);
  }

  /** A node found earlier has a path that comes no later than the one through the current node. */
  lemma FoundEarlier<N(!new)>(less: (N, N) -> bool, q: seq<N>, current: seq<N>, v: N)
    requires Fits(less, q, current) && q != [] && q[|q| - 1] == v
    ensures AtMost(less, q, current + [v])
  {
    if |q| == |current| + 1 {
      assert q == q[..|current|] + [v];
      BeforeLonger(less, q[..|current|], v, current, v);
    }
  }

  /** All edges of `p` were followed. */
  lemma FollowedAll<N(!new), E>(out: Adjacency<N, E>, less: (N, N) -> bool, start: N, p: N, known: Tree<N>,
                                back: BackLinks<N, E>, back': BackLinks<N, E>, queue: seq<N>, s: Sweep<N>,
                                before: Sweep<N>)
    requires before.tree == known && s.done == before.done + {p} && Followed(out, less, back, before)
    requires !IsSink(out, p) && back.Keys <= back'.Keys && out(p).Keys <= back'.Keys
    requires Following(out, less, start, p, known, back', queue, s)
    requires p in before.done || known[p] == s.current
    ensures Followed(out, less, back', s)
  {
    hide AtMost, IsSink;
    forall u, v | u in s.done && Edge(out, u, v)
      ensures v in back' && v in s.tree && AtMost(less, s.tree[v], s.tree[u] + [v])
    {
      if u in before.done {
        assert v in known && AtMost(less, known[v], known[u] + [v]);
      } else {
        FoundEarlier(less, s.tree[v], s.current, v);
      }
    }
  }

  /** The loop over one node's edges: queues the successors not linked yet, in the order of keys. */
  method Expand<N(==, !new), E>(out: Adjacency<N, E>, less: (N, N) -> bool, start: N, p: N, back: BackLinks<N, E>,
                                queue: seq<N>, ghost before: Sweep<N>, ghost s: Sweep<N>)
    returns (back': BackLinks<N, E>, queue': seq<N>, ghost s': Sweep<N>)
    requires StrictOrder(less) && before.tree == s.tree && s.done == before.done + {p}
    requires Followed(out, less, back, before) && !IsSink(out, p) && Ascending(less, s, out(p).Keys)
    requires Following(out, less, start, p, s.tree, back, queue, s) && (p in before.done || s.tree[p] == s.current)
    ensures Following(out, less, start, p, s.tree, back', queue', s') && Followed(out, less, back', s')
    ensures s'.done == s.done && s'.current == s.current
    ensures forall x <- s.tree :: x in s'.tree && s'.tree[x] == s.tree[x]
    ensures back.Keys <= back'.Keys == back.Keys + out(p).Keys
    ensures back'.Keys == back.Keys ==> queue' == queue
    ensures forall c <- back' :: if c in back then back'[c] == back[c] else back'[c].0 == p
  {
    hide Following, Followed, Ascending;
    back', queue', s' := back, queue, s;
    var todo := out(p).Keys;
    while todo != {}
      invariant todo <= out(p).Keys && out(p).Keys - todo <= back'.Keys
      invariant back.Keys <= back'.Keys <= back.Keys + out(p).Keys
      invariant back'.Keys == back.Keys ==> queue' == queue
      invariant forall c <- back' :: if c in back then back'[c] == back[c] else back'[c].0 == p
      invariant s'.done == s.done && s'.current == s.current
      invariant forall x <- s.tree :: x in s'.tree && s'.tree[x] == s.tree[x]
      invariant Following(out, less, start, p, s.tree, back', queue', s') && Ascending(less, s', todo)
    {
      ghost var least := LeastOf(less, todo);
      var child :| child in todo && forall d <- todo :: d == child || less(child, d);
      if child !in back' {
        FollowEdge(out, less, start, p, s.tree, back', queue', s', todo, child);
        ghost var tree' := if child == start then s'.tree else s'.tree[child := s'.current + [child]];
        AscendingMore(less, s', tree', todo, child);
        s' := s'.(tree := tree', paths := s'.paths + [s'.current + [child]]);
        back', queue' := back'[child := (p, out(p)[child])], queue' + [child];
      } else {
        AscendingFewer(less, s', todo, child);
      }
      todo := todo - {child};
    }
    FollowedAll(out, less, start, p, s.tree, back, back', queue', s', before);
  }

  lemma AscendingFewer<N(!new)>(less: (N, N) -> bool, s: Sweep<N>, todo: set<N>, child: N)
    requires Ascending(less, s, todo)
    ensures Ascending(less, s, todo - {child})
  {
  }

  // ---- The search ---------------------------------------------------------

  /** Between two nodes of the search. */
  ghost predicate Searching<N(!new), E>(out: Adjacency<N, E>, less: (N, N) -> bool, start: N, back: BackLinks<N, E>,
                                        queue: seq<N>, s: Sweep<N>) {
    && Linked(out, start, back, s.tree) && Followed(out, less, back, s)
    && Lined(less, start, queue, s) && AllPending(s)
    && (start in s.done || (queue == [start] && s.done == {}))
  }

  lemma FitsLater<N(!new)>(less: (N, N) -> bool, q: seq<N>, current: seq<N>, next: seq<N>)
    requires StrictOrder(less) && Fits(less, q, current) && Before(less, current, next)
    ensures Fits(less, q, next)
  {
    if |q| == |current| + 1 && |next| == |current| {
      BeforeTransitive(less, q[..|current|], current, next);
    }
  }

  /** Taking the first node off the queue. */
  ghost function Next<N>(queue: seq<N>, s: Sweep<N>): Sweep<N>
    requires queue != [] && |s.paths| == |queue|
  {
    Sweep(s.tree, s.done + {queue[0]}, s.paths[1..], s.paths[0])
  }

  lemma NextLined<N(!new)>(less: (N, N) -> bool, start: N, queue: seq<N>, s: Sweep<N>)
    requires StrictOrder(less) && Lined(less, start, queue, s) && queue != []
    ensures Lined(less, start, queue[1..], Next(queue, s))
  {
    var s' := Next(queue, s);
    forall i | 0 <= i < |queue| - 1
      ensures Before(less, s'.current, s'.paths[i]) && Fits(less, s'.paths[i], s'.current)
    {
      FitsLater(less, s.paths[i + 1], s.current, s'.current);
    }
    forall x <- s.tree ensures Fits(less, s.tree[x], s'.current) {
      FitsLater(less, s.tree[x], s.current, s'.current);
    }
  }

  /** Nothing in the queue was put there through the node just taken off. */
  lemma NextAscending<N(!new)>(less: (N, N) -> bool, start: N, queue: seq<N>, s: Sweep<N>, todo: set<N>)
    requires StrictOrder(less) && Lined(less, start, queue, s) && queue != []
    ensures Ascending(less, Next(queue, s), todo)
  {
    var s' := Next(queue, s);
    BeforeAsymmetric(less, s.current, s'.current);
    forall c ensures s'.current + [c] !in s'.paths {
      var q := s'.current + [c];
      assert q[..|s'.current|] == s'.current;
      assert q in s.paths ==> Fits(less, q, s.current);
    }
  }

  lemma NextPending<N(!new)>(less: (N, N) -> bool, start: N, queue: seq<N>, s: Sweep<N>)
    requires StrictOrder(less) && Lined(less, start, queue, s) && AllPending(s) && queue != []
    ensures AllPending(Next(queue, s))
    ensures forall x <- s.tree :: Before(less, s.tree[x], s.paths[0]) ==> x in s.done
  {
    forall x <- s.tree ensures x in s.done + {queue[0]} || s.tree[x] in s.paths[1..] {
      if x !in s.done && s.tree[x] == s.paths[0] {
        assert x == queue[0];
      }
    }
    forall x <- s.tree ensures Before(less, s.tree[x], s.paths[0]) ==> x in s.done {
      if x !in s.done {
        var i :| 0 <= i < |s.paths| && s.paths[i] == s.tree[x];
        assert AtMost(less, s.paths[0], s.paths[i]);
        BeforeAsymmetric(less, s.paths[0], s.paths[i]);
      }
    }
  }

  lemma Pop<N(!new), E>(out: Adjacency<N, E>, less: (N, N) -> bool, start: N, back: BackLinks<N, E>, queue: seq<N>,
                        s: Sweep<N>)
    requires StrictOrder(less) && Searching(out, less, start, back, queue, s) && queue != []
    ensures |s.paths| == |queue| && Followed(out, less, back, s) && queue[0] in s.tree
    ensures var p, s' := queue[0], Next(queue, s);
            && Following(out, less, start, p, s.tree, back, queue[1..], s') && Ascending(less, s', out(p).Keys)
            && (p in s.done ==> out(p).Keys <= back.Keys && !IsSink(out, p))
            && (p !in s.done ==> s.tree[p] == s'.current)
            && Before(less, s.current, s'.current)
    ensures forall x <- s.tree :: Before(less, s.tree[x], s.paths[0]) ==> x in s.done
  {
    hide Before;
    NextLined(less, start, queue, s);
    NextPending(less, start, queue, s);
    NextAscending(less, start, queue, s, out(queue[0]).Keys);
    if queue[0] in s.done {
      DoneLinked(out, less, back, s, queue[0]);
    }
    hide StrictOrder, AtMost, Fits, Followed, Ascending, IsSink;
  }

  lemma DoneLinked<N(!new), E>(out: Adjacency<N, E>, less: (N, N) -> bool, back: BackLinks<N, E>, s: Sweep<N>, p: N)
    requires Followed(out, less, back, s) && p in s.done
    ensures out(p).Keys <= back.Keys && !IsSink(out, p)
  {
    forall v <- out(p) ensures v in back {
      assert Edge(out, p, v);
    }
  }

  lemma Resume<N(!new), E>(out: Adjacency<N, E>, less: (N, N) -> bool, start: N, p: N, known: Tree<N>,
                           back: BackLinks<N, E>, queue: seq<N>, s: Sweep<N>)
    requires Following(out, less, start, p, known, back, queue, s) && Followed(out, less, back, s)
    ensures Searching(out, less, start, back, queue, s)
  {
  }

  lemma BeginLined<N(!new)>(less: (N, N) -> bool, start: N, s: Sweep<N>)
    requires s == Sweep(map[start := [start]], {}, [[start]], [])
    ensures Lined(less, start, [start], s) && AllPending(s)
  {
    hide Lex;
    assert [start][..0] == [];
    assert s.paths[0] == [start];
  }

  lemma Begin<N(!new), E>(out: Adjacency<N, E>, less: (N, N) -> bool, start: N)
    ensures Searching(out, less, start, map[], [start], Sweep(map[start := [start]], {}, [[start]], []))
  {
    hide Lined, AllPending, Edge, AtMost, IsSink;
    BeginLined(less, start, Sweep(map[start := [start]], {}, [[start]], []));
  }

  // ---- What the search finds --------------------------------------------------

  /** The tree paths are paths of the graph. */
  lemma {:induction false} TreePath<N(!new), E>(out: Adjacency<N, E>, start: N, back: BackLinks<N, E>, tree: Tree<N>,
                                                c: N)
    requires Linked(out, start, back, tree) && c in tree
    ensures PathFromTo(out, tree[c], start, c)
    decreases |tree[c]|
  {
    if c != start {
      var front := tree[back[c].0];
      TreePath(out, start, back, tree, back[c].0);
      forall i | 0 <= i < |tree[c]| - 1 ensures Edge(out, tree[c][i], tree[c][i + 1]) {
        if i < |front| - 1 { assert Edge(out, front[i], front[i + 1]); }
      }
    }
  }

  /** A path that comes before the bound ends in a node that was followed, whose own path comes no later. */
  lemma {:induction false} PathDone<N(!new), E>(out: Adjacency<N, E>, less: (N, N) -> bool, start: N,
                                                back: BackLinks<N, E>, s: Sweep<N>, p: seq<N>, bound: seq<N>)
    requires StrictOrder(less) && Followed(out, less, back, s) && start in s.tree && s.tree[start] == [start]
    requires forall x <- s.tree :: Before(less, s.tree[x], bound) ==> x in s.done
    requires StartPath(out, start, p) && Before(less, p, bound)
    ensures p[|p| - 1] in s.done && AtMost(less, s.tree[p[|p| - 1]], p)
  {
    var n := |p| - 1;
    var x := p[n];
    if n == 0 {
      assert p == [start];
    } else {
      var front, y := p[..n], p[n - 1];
      BeforeTransitive(less, front, p, bound);
      PathDone(out, less, start, back, s, front, bound);
      assert Edge(out, p[n - 1], p[n - 1 + 1]);
      assert p == front + [x];
      BeforeLonger(less, s.tree[y], x, front, x);
      BeforeTransitive(less, s.tree[x], s.tree[y] + [x], p);
      BeforeTransitive(less, s.tree[x], p, bound);
    }
  }

  /** A link back to the start comes from a node followed already. */
  ghost predicate StartLink<N(!new), E>(less: (N, N) -> bool, start: N, back: BackLinks<N, E>, s: Sweep<N>) {
    start in back ==>
        back[start].0 in s.done && back[start].0 in s.tree && AtMost(less, s.tree[back[start].0], s.current)
  }

  /** A cycle that closes before any path reaches a sink. */
  ghost predicate FirstCycle<N(!new), E>(out: Adjacency<N, E>, less: (N, N) -> bool, start: N, p: seq<N>) {
    CyclePath(out, start, p) && forall q | SinkPath(out, start, q) :: Before(less, p, q)
  }

  /** What the search ends with: the first of all paths to sinks, or no sink at all; and a link back to
      the start exactly when some cycle closes before that. */
  ghost predicate Found<N(!new), E>(out: Adjacency<N, E>, less: (N, N) -> bool, start: N, back: BackLinks<N, E>,
                                    tree: Tree<N>, last: N) {
    && last in tree && (IsSink(out, last) <==> exists q :: SinkPath(out, start, q))
    && (forall q | SinkPath(out, start, q) :: AtMost(less, tree[last], q))
    && (start in back <==> exists p :: FirstCycle(out, less, start, p))
  }

  /** No path to a sink comes before what was followed already. */
  lemma NoSinkBefore<N(!new), E>(out: Adjacency<N, E>, less: (N, N) -> bool, start: N, back: BackLinks<N, E>,
                                 s: Sweep<N>, bound: seq<N>)
    requires StrictOrder(less) && Linked(out, start, back, s.tree) && Followed(out, less, back, s)
    requires forall x <- s.tree :: Before(less, s.tree[x], bound) ==> x in s.done
    ensures forall q | SinkPath(out, start, q) :: AtMost(less, bound, q)
  {
    hide Lex, StrictOrder;
    forall q | SinkPath(out, start, q) ensures AtMost(less, bound, q) {
      BeforeTotal(less, bound, q);
      if Before(less, q, bound) {
        PathDone(out, less, start, back, s, q, bound);
      }
    }
  }

  /** A cycle that closes before the bound was closed. */
  lemma CycleClosed<N(!new), E>(out: Adjacency<N, E>, less: (N, N) -> bool, start: N, back: BackLinks<N, E>,
                                s: Sweep<N>, bound: seq<N>)
    requires StrictOrder(less) && Linked(out, start, back, s.tree) && Followed(out, less, back, s)
    requires forall x <- s.tree :: Before(less, s.tree[x], bound) ==> x in s.done
    ensures forall p | CyclePath(out, start, p) && Before(less, p, bound) :: start in back
  {
    hide Lex, StrictOrder;
    forall p | CyclePath(out, start, p) && Before(less, p, bound) ensures start in back {
      PathDone(out, less, start, back, s, p, bound);
    }
  }

  /** The cycle that a link back to the start closes. */
  lemma LinkCloses<N(!new), E>(out: Adjacency<N, E>, start: N, back: BackLinks<N, E>, tree: Tree<N>)
    requires Linked(out, start, back, tree) && start in back
    ensures CyclePath(out, start, tree[back[start].0])
  {
    TreePath(out, start, back, tree, back[start].0);
  }

  /** At the first sink that leaves the queue. */
  lemma AtSink<N(!new), E>(out: Adjacency<N, E>, less: (N, N) -> bool, start: N, back: BackLinks<N, E>, queue: seq<N>,
                           s: Sweep<N>)
    requires StrictOrder(less) && Searching(out, less, start, back, queue, s) && queue != [] && IsSink(out, queue[0])
    requires StartLink(less, start, back, s)
    ensures Linked(out, start, back, s.tree) && Found(out, less, start, back, s.tree, queue[0])
  {
    hide Lined, AllPending, Lex, StrictOrder, Following, Ascending, Followed, AtMost;
    Pop(out, less, start, back, queue, s);
    var last, bound := queue[0], s.paths[0];
    TreePath(out, start, back, s.tree, last);
    NoSinkBefore(out, less, start, back, s, bound);
    CycleClosed(out, less, start, back, s, bound);
    hide Linked, IsPath, IsSink, Before;
    assert SinkPath(out, start, bound);
    if start in back {
      var p := s.tree[back[start].0];
      LinkCloses(out, start, back, s.tree);
      BeforeTransitive(less, p, s.current, bound);
      forall q | SinkPath(out, start, q) ensures Before(less, p, q) {
        BeforeTransitive(less, p, bound, q);
      }
      assert FirstCycle(out, less, start, p);
    }
  }

  /** At the end of the queue everything reachable was followed. */
  lemma AtEnd<N(!new), E>(out: Adjacency<N, E>, less: (N, N) -> bool, start: N, back: BackLinks<N, E>, s: Sweep<N>,
                          last: N)
    requires StrictOrder(less) && Searching(out, less, start, back, [], s) && last in s.done
    ensures Linked(out, start, back, s.tree) && Found(out, less, start, back, s.tree, last)
  {
    assert forall x <- s.tree :: x in s.done;
    hide Lined, AllPending, Lex, StrictOrder;
    forall q | StartPath(out, start, q) ensures q[|q| - 1] in s.done {
      PathDone(out, less, start, back, s, q, q + [start]);
    }
    hide Before, AtMost, IsPath;
    if start in back {
      LinkCloses(out, start, back, s.tree);
      assert FirstCycle(out, less, start, s.tree[back[start].0]);
    }
  }

  /** The links, the node the search ended at, and the paths of the discovered nodes. */
  method Search<N(==, !new), E>(out: Adjacency<N, E>, less: (N, N) -> bool, start: N, ghost all: set<N>)
    returns (back: BackLinks<N, E>, last: N, ghost tree: Tree<N>)
    requires StrictOrder(less) && forall u :: out(u).Keys <= all
    ensures Linked(out, start, back, tree) && Found(out, less, start, back, tree, last)
  {
    hide Following, Followed, Ascending, Lined, AllPending, StrictOrder, AtMost, Before, Found, Searching, StartLink,
        Linked, IsSink;
    back, last := map[], start;
    var queue := [start];
    ghost var s := Sweep(map[start := [start]], {}, [[start]], []);
    Begin(out, less, start);
    NotLinkedYet(less, start, back, s);
    while queue != []
      invariant Searching(out, less, start, back, queue, s) && StartLink(less, start, back, s)
      invariant back.Keys <= all && (queue == [] ==> last in s.done)
      decreases all - back.Keys, |queue|
    {
      Pop(out, less, start, back, queue, s);
      last := queue[0];
      if IsSink(out, last) {
        AtSink(out, less, start, back, queue, s);
        tree := s.tree;
        return;
      }
      ghost var earlier, was := s, back;
      s := Next(queue, s);
      queue := queue[1..];
      back, queue, s := Expand(out, less, start, last, back, queue, earlier, s);
      Resume(out, less, start, last, earlier.tree, back, queue, s);
      StillLinked(out, less, start, last, was, back, earlier, s);
      assert back.Keys == was.Keys || all - back.Keys < all - was.Keys;
    }
    AtEnd(out, less, start, back, s, last);
    tree := s.tree;
  }

  lemma NotLinkedYet<N(!new), E>(less: (N, N) -> bool, start: N, back: BackLinks<N, E>, s: Sweep<N>)
    requires start !in back
    ensures StartLink(less, start, back, s)
  {
  }

  lemma StillLinked<N(!new), E>(out: Adjacency<N, E>, less: (N, N) -> bool, start: N, p: N, back: BackLinks<N, E>,
                                back': BackLinks<N, E>, s: Sweep<N>, s': Sweep<N>)
    requires StrictOrder(less) && StartLink(less, start, back, s) && p in s.tree && s'.done == s.done + {p}
    requires forall c <- back' :: if c in back then back'[c] == back[c] else back'[c].0 == p
    requires forall x <- s.tree :: x in s'.tree && s'.tree[x] == s.tree[x]
    requires Before(less, s.current, s'.current) && (s.tree[p] == s'.current || back'.Keys == back.Keys)
    ensures StartLink(less, start, back', s')
  {
    if start in back {
      BeforeTransitive(less, s.tree[back[start].0], s.current, s'.current);
    }
  }
}
