/** The second loop of `path_to`, back along the recorded links, and what the whole of it returns. */
module GraphSearch {
  import opened Options
  import opened Sequences
  import opened GraphPaths
  import opened Graphs
  import opened Shortlex
  import opened BreadthFirst

  // ---- The path back ------------------------------------------------------

  type Steps<!N, E> = seq<(N, Option<E>)>

  ghost predicate NoRepeats<N(!new), E>(steps: Steps<N, E>) {
    forall i, j | 0 <= i < j < |steps| :: steps[i].0 != steps[j].0
  }

  /** An edge leads from `a` to `b`, and `b` carries it. */
  ghost predicate LeadsTo<N(!new), E>(out: Adjacency<N, E>, a: N, b: (N, Option<E>)) {
    Edge(out, a, b.0) && b.1 == Some(out(a)[b.0])
  }

  /** A path without repeated nodes; each node but the first carries the edge that leads to it. */
  ghost predicate EdgePath<N(!new), E>(out: Adjacency<N, E>, steps: Steps<N, E>) {
    |steps| >= 1 && NoRepeats(steps) && forall i | 0 <= i < |steps| - 1 :: LeadsTo(out, steps[i].0, steps[i + 1])
  }

  /** The same path, pushed from its end. */
  ghost predicate BackwardPath<N(!new), E>(out: Adjacency<N, E>, steps: Steps<N, E>) {
    |steps| >= 1 && NoRepeats(steps) && forall i | 0 <= i < |steps| - 1 :: LeadsTo(out, steps[i + 1].0, steps[i])
  }

  /** The edge a node carries comes from a node on the path. */
  ghost predicate FromOnPath<N(!new), E>(out: Adjacency<N, E>, steps: Steps<N, E>, step: (N, Option<E>)) {
    exists i :: 0 <= i < |steps| && LeadsTo(out, steps[i].0, step)
  }

  lemma ReversedPath<N(!new), E>(out: Adjacency<N, E>, steps: Steps<N, E>)
    requires BackwardPath(out, steps)
    ensures EdgePath(out, Reversed(steps))
    ensures FromOnPath(out, steps, steps[|steps| - 1]) ==> FromOnPath(out, Reversed(steps), Reversed(steps)[0])
  {
    hide LeadsTo, NoRepeats;
    ReversedEdges(out, steps);
    assert NoRepeats(Reversed(steps)) by { ReversedNoRepeats(steps); }
    if FromOnPath(out, steps, steps[|steps| - 1]) {
      var i :| 0 <= i < |steps| && LeadsTo(out, steps[i].0, steps[|steps| - 1]);
      assert LeadsTo(out, Reversed(steps)[|steps| - 1 - i].0, Reversed(steps)[0]);
    }
  }

  lemma ReversedNoRepeats<N(!new), E>(steps: Steps<N, E>)
    requires NoRepeats(steps)
    ensures NoRepeats(Reversed(steps))
  {
  }

  lemma ReversedEdges<N(!new), E>(out: Adjacency<N, E>, steps: Steps<N, E>)
    requires forall i | 0 <= i < |steps| - 1 :: LeadsTo(out, steps[i + 1].0, steps[i])
    ensures var r := Reversed(steps); forall i | 0 <= i < |steps| - 1 :: LeadsTo(out, r[i].0, r[i + 1])
  {
    hide LeadsTo;
    var r, n := Reversed(steps), |steps|;
    forall i | 0 <= i < n - 1 ensures LeadsTo(out, r[i].0, r[i + 1]) {
      var k := n - 2 - i;
      assert r[i] == steps[k + 1] && r[i + 1] == steps[k];
    }
  }

  ghost predicate On<N(!new), E>(steps: Steps<N, E>, n: N) {
    exists i :: 0 <= i < |steps| && steps[i].0 == n
  }

  /** Pushed so far: links followed from `last` back to `next`. */
  ghost predicate Chained<N(!new), E>(out: Adjacency<N, E>, last: N, next: N, trail: Steps<N, E>) {
    && NoRepeats(trail)
    && (forall i | 0 <= i < |trail| - 1 :: LeadsTo(out, trail[i + 1].0, trail[i]))
    && (if trail == [] then next == last
        else trail[0].0 == last && LeadsTo(out, next, trail[|trail| - 1]) && trail[|trail| - 1].1.Some?)
  }

  /** The links not used yet are those of the nodes not pushed. */
  ghost predicate Remaining<N(!new), E>(back: BackLinks<N, E>, left: BackLinks<N, E>, trail: Steps<N, E>) {
    && (forall i | 0 <= i < |trail| :: trail[i].0 !in left)
    && (forall c <- left :: c in back && left[c] == back[c])
    && (forall c <- back :: c in left || On(trail, c))
  }

  ghost predicate Trail<N(!new), E>(out: Adjacency<N, E>, back: BackLinks<N, E>, left: BackLinks<N, E>,
                                    last: N, next: N, trail: Steps<N, E>) {
    Chained(out, last, next, trail) && Remaining(back, left, trail)
  }

  lemma ChainStep<N(!new), E>(out: Adjacency<N, E>, last: N, next: N, trail: Steps<N, E>, from: N, edge: Option<E>)
    requires Chained(out, last, next, trail) && LeadsTo(out, from, (next, edge)) && edge.Some?
    requires forall i | 0 <= i < |trail| :: trail[i].0 != next
    ensures Chained(out, last, from, trail + [(next, edge)])
  {
    hide LeadsTo, NoRepeats;
    TrailFresh(trail, next, edge);
    var trail' := trail + [(next, edge)];
    forall i | 0 <= i < |trail'| - 1 ensures LeadsTo(out, trail'[i + 1].0, trail'[i]) {
      if i < |trail| - 1 { assert LeadsTo(out, trail[i + 1].0, trail[i]); }
    }
  }

  lemma RemainingStep<N(!new), E>(back: BackLinks<N, E>, left: BackLinks<N, E>, trail: Steps<N, E>, next: N,
                                  edge: Option<E>)
    requires Remaining(back, left, trail) && next in left
    ensures Remaining(back, left - {next}, trail + [(next, edge)])
  {
    hide On;
    forall c | c in back && c !in left - {next} ensures On(trail + [(next, edge)], c) {
      OnLonger(trail, (next, edge), c);
    }
  }

  lemma LinkLeads<N(!new), E>(out: Adjacency<N, E>, start: N, back: BackLinks<N, E>, tree: Tree<N>, next: N)
    requires Linked(out, start, back, tree) && next in back
    ensures LeadsTo(out, back[next].0, (next, Some(back[next].1)))
  {
  }

  lemma TrailFresh<N(!new), E>(trail: Steps<N, E>, next: N, edge: Option<E>)
    requires NoRepeats(trail) && forall i | 0 <= i < |trail| :: trail[i].0 != next
    ensures NoRepeats(trail + [(next, edge)])
  {
  }

  lemma OnLonger<N(!new), E>(trail: Steps<N, E>, step: (N, Option<E>), c: N)
    requires On(trail, c) || step.0 == c
    ensures On(trail + [step], c)
  {
    var longer := trail + [step];
    if step.0 == c {
      assert longer[|trail|].0 == c;
    } else {
      var i :| 0 <= i < |trail| && trail[i].0 == c;
      assert longer[i].0 == c;
    }
  }

  lemma TrailStep<N(!new), E>(out: Adjacency<N, E>, start: N, back: BackLinks<N, E>, tree: Tree<N>,
                              left: BackLinks<N, E>, last: N, next: N, trail: Steps<N, E>)
    requires Linked(out, start, back, tree) && Trail(out, back, left, last, next, trail) && next in left
    ensures Trail(out, back, left - {next}, last, left[next].0, trail + [(next, Some(left[next].1))])
  {
    hide Linked, Chained, LeadsTo, On;
    LinkLeads(out, start, back, tree, next);
    ChainStep(out, last, next, trail, left[next].0, Some(left[next].1));
    RemainingStep(back, left, trail, next, Some(left[next].1));
  }

  lemma TrailEnd<N(!new), E>(out: Adjacency<N, E>, back: BackLinks<N, E>, left: BackLinks<N, E>,
                             last: N, next: N, trail: Steps<N, E>)
    requires Trail(out, back, left, last, next, trail)
    requires next !in left
    ensures On(trail, next) ==> BackwardPath(out, trail) && trail[0].0 == last && trail[|trail| - 1].1.Some?
    ensures On(trail, next) ==> FromOnPath(out, trail, trail[|trail| - 1])
    ensures !On(trail, next) ==>
              BackwardPath(out, trail + [(next, None)]) && (trail + [(next, None)])[0].0 == last && next !in back
    ensures next in back ==> On(trail, next)
  {
    if !On(trail, next) {
      var full := trail + [(next, None)];
      forall i | 0 <= i < |full| - 1 ensures LeadsTo(out, full[i + 1].0, full[i]) {
        if i < |trail| - 1 { assert LeadsTo(out, trail[i + 1].0, trail[i]); }
      }
    }
  }

  /** The nodes pushed are those of the path to `last`, from its end, until the start is passed. */
  ghost predicate Climbing<N(!new), E>(start: N, back: BackLinks<N, E>, tree: Tree<N>, last: N, next: N,
                                       trail: Steps<N, E>)
    requires last in tree
  {
    var path := tree[last];
    && next in tree
    && (if |trail| < |path| then tree[next] == path[..|path| - |trail|] else start in back)
    && (forall i | 0 <= i < |trail| && i < |path| :: trail[i].0 in tree && tree[trail[i].0] == path[..|path| - i])
  }

  lemma ClimbStep<N(!new), E>(out: Adjacency<N, E>, start: N, back: BackLinks<N, E>, tree: Tree<N>,
                              last: N, next: N, trail: Steps<N, E>)
    requires Linked(out, start, back, tree) && last in tree && next in back
               && Climbing(start, back, tree, last, next, trail)
    ensures Climbing(start, back, tree, last, back[next].0, trail + [(next, Some(back[next].1))])
  {
    var path, from := tree[last], back[next].0;
    LinkTree(out, start, back, tree, next);
    hide Linked;
    if |trail| < |path| && next != start {
      assert tree[from] == path[..|path| - |trail|][..|path| - |trail| - 1];
    }
  }

  lemma LinkTree<N(!new), E>(out: Adjacency<N, E>, start: N, back: BackLinks<N, E>, tree: Tree<N>, c: N)
    requires Linked(out, start, back, tree) && c in back
    ensures c in tree && back[c].0 in tree && tree[back[c].0] != []
    ensures if c == start then tree[c] == [start] else tree[c] == tree[back[c].0] + [c]
  {
    TreeNonempty(out, start, back, tree, back[c].0);
  }

  lemma TreeNonempty<N(!new), E>(out: Adjacency<N, E>, start: N, back: BackLinks<N, E>, tree: Tree<N>, c: N)
    requires Linked(out, start, back, tree) && c in tree
    ensures tree[c] != [] && tree[c][|tree[c]| - 1] == c && (c != start ==> |tree[c]| > 1)
  {
    TreePath(out, start, back, tree, c);
    if c != start {
      TreePath(out, start, back, tree, back[c].0);
    }
  }

  /** Where the climb ends: the start was passed where its path ends. */
  lemma ClimbEnd<N(!new), E>(out: Adjacency<N, E>, start: N, back: BackLinks<N, E>, tree: Tree<N>,
                             last: N, next: N, trail: Steps<N, E>)
    requires Linked(out, start, back, tree) && last in tree && Climbing(start, back, tree, last, next, trail)
    requires next in back ==> On(trail, next)
    ensures if start in back then On(trail, next) && |tree[last]| <= |trail|
            else next == start && !On(trail, next) && |tree[last]| == |trail| + 1
  {
    hide Edge;
    var path := tree[last];
    if |trail| < |path| {
      TreeNonempty(out, start, back, tree, next);
      forall i | 0 <= i < |trail| ensures trail[i].0 != next {
        assert |tree[trail[i].0]| == |path| - i;
      }
      assert !On(trail, next);
    }
  }

  /** Turned round, the steps end in the path to `last`. */
  ghost predicate EndsIn<N(!new), E>(steps: Steps<N, E>, path: seq<N>) {
    && 0 < |path| <= |steps|
    && forall j | 0 <= j < |path| :: steps[|steps| - |path| + j].0 == path[j]
  }

  lemma ReversedEnds<N(!new), E>(steps: Steps<N, E>, path: seq<N>)
    requires 0 < |path| <= |steps| && forall i | 0 <= i < |path| :: steps[i].0 == path[|path| - 1 - i]
    ensures EndsIn(Reversed(steps), path)
  {
    var r := Reversed(steps);
    forall j | 0 <= j < |path| ensures r[|r| - |path| + j].0 == path[j] {
      assert steps[|path| - 1 - j].0 == path[j];
    }
  }

  lemma TreeEnds<N(!new), E>(out: Adjacency<N, E>, start: N, back: BackLinks<N, E>, tree: Tree<N>)
    requires Linked(out, start, back, tree)
    ensures forall c <- tree :: tree[c] != [] && tree[c][|tree[c]| - 1] == c
  {
    forall c <- tree ensures tree[c] != [] && tree[c][|tree[c]| - 1] == c {
      TreeNonempty(out, start, back, tree, c);
    }
  }

  lemma ClimbedNames<N(!new), E>(start: N, back: BackLinks<N, E>, tree: Tree<N>, last: N, next: N, trail: Steps<N, E>)
    requires forall c <- tree :: tree[c] != [] && tree[c][|tree[c]| - 1] == c
    requires last in tree && Climbing(start, back, tree, last, next, trail)
    ensures forall i | 0 <= i < |trail| && i < |tree[last]| :: trail[i].0 == tree[last][|tree[last]| - 1 - i]
  {
    var path := tree[last];
    forall i | 0 <= i < |trail| && i < |path| ensures trail[i].0 == path[|path| - 1 - i] {
      assert tree[trail[i].0] == path[..|path| - i];
    }
  }

  lemma ClimbedPath<N(!new), E>(out: Adjacency<N, E>, start: N, back: BackLinks<N, E>, tree: Tree<N>,
                                last: N, next: N, trail: Steps<N, E>)
    requires Linked(out, start, back, tree) && last in tree && Climbing(start, back, tree, last, next, trail)
    ensures |tree[last]| <= |trail| ==> EndsIn(Reversed(trail), tree[last])
    ensures next == start && |tree[last]| == |trail| + 1 ==> EndsIn(Reversed(trail + [(next, None)]), tree[last])
  {
    var path := tree[last];
    TreePath(out, start, back, tree, last);
    assert path != [] && path[0] == start;
    TreeEnds(out, start, back, tree);
    ClimbedNames(start, back, tree, last, next, trail);
    hide Linked, Climbing, EndsIn, PathFromTo;
    if |path| <= |trail| {
      ReversedEnds(trail, path);
    } else if next == start && |path| == |trail| + 1 {
      ReversedEnds(trail + [(next, None)], path);
    }
  }

  /** The second loop of `path_to`: follows the links back, each once, and turns the list round. */
  method WalkBack<N(==, !new), E>(out: Adjacency<N, E>, start: N, back: BackLinks<N, E>, last: N, ghost tree: Tree<N>)
    returns (result: Steps<N, E>)
    requires Linked(out, start, back, tree) && last in tree
    ensures EdgePath(out, result) && EndsIn(result, tree[last]) && result[|result| - 1].0 == last
    ensures start !in back ==> result[0] == (start, None) && |result| == |tree[last]|
    ensures start in back ==> result[0].1.Some? && FromOnPath(out, result, result[0])
  {
    hide Trail, Linked, Climbing, EndsIn;
    var trail: Steps<N, E> := [];
    var left, next := back, last;
    TrailBegin(out, back, last);
    ClimbBegin(out, start, back, tree, last);
    while next in left
      invariant Trail(out, back, left, last, next, trail) && Climbing(start, back, tree, last, next, trail)
      invariant forall c <- left :: c in back && left[c] == back[c]
      decreases left.Keys
    {
      TrailStep(out, start, back, tree, left, last, next, trail);
      ClimbStep(out, start, back, tree, last, next, trail);
      trail := trail + [(next, Some(left[next].1))];
      left, next := left - {next}, left[next].0;
    }
    TrailEnd(out, back, left, last, next, trail);
    ClimbEnd(out, start, back, tree, last, next, trail);
    ClimbedPath(out, start, back, tree, last, next, trail);
    if forall i | 0 <= i < |trail| :: trail[i].0 != next {
      trail := trail + [(next, None)];
    }
    ReversedPath(out, trail);
    result := Reversed(trail);
  }

  lemma ClimbBegin<N(!new), E>(out: Adjacency<N, E>, start: N, back: BackLinks<N, E>, tree: Tree<N>, last: N)
    requires Linked(out, start, back, tree) && last in tree
    ensures Climbing(start, back, tree, last, last, [])
  {
    TreeNonempty(out, start, back, tree, last);
  }

  lemma TrailBegin<N(!new), E>(out: Adjacency<N, E>, back: BackLinks<N, E>, last: N)
    ensures Trail(out, back, back, last, last, [])
  {
  }

  // ---- path_to ------------------------------------------------------------

  ghost predicate SinkReachable<N(!new), E>(out: Adjacency<N, E>, start: N) {
    exists n :: Reach(out, start, n) && IsSink(out, n)
  }

  /** What `path_to` promises. On every graph: a path of real edges without repeated nodes, ending
      in a sink whenever one can be reached. It passes the start, and what follows from there is the
      first of all paths from the start to a sink: the shortest ones first, and among those in the
      order of their keys. If its first node carries no edge, that node is the start; otherwise the
      edge comes from a node on the path. */
  ghost predicate BestPath<N(!new), E>(out: Adjacency<N, E>, less: (N, N) -> bool, pkg: N, result: Steps<N, E>) {
    && EdgePath(out, result)
    && (SinkReachable(out, pkg) <==> IsSink(out, result[|result| - 1].0))
    && (exists path :: FirstPath(out, less, pkg, result, path))
    && (if result[0].1.None? then result[0].0 == pkg else FromOnPath(out, result, result[0]))
  }

  ghost predicate FirstPath<N(!new), E>(out: Adjacency<N, E>, less: (N, N) -> bool, pkg: N, result: Steps<N, E>,
                                        path: seq<N>) {
    && StartPath(out, pkg, path) && EndsIn(result, path)
    && forall q | SinkPath(out, pkg, q) :: AtMost(less, path, q)
  }

  /** The first node carries an edge exactly when some cycle through the start closes before every
      path to a sink, in the same order. */
  ghost predicate EdgeOnFirst<N(!new), E>(out: Adjacency<N, E>, less: (N, N) -> bool, pkg: N, result: Steps<N, E>)
    requires result != []
  {
    result[0].1.Some? <==> exists p :: FirstCycle(out, less, pkg, p)
  }

  /** Edges are taken in the order of their keys, as in an ordered map. */
  method PathTo<N(==, !new), E>(out: Adjacency<N, E>, less: (N, N) -> bool, pkg: N, ghost all: set<N>)
    returns (result: Steps<N, E>)
    requires StrictOrder(less) && forall u :: out(u).Keys <= all
    ensures BestPath(out, less, pkg, result) && EdgeOnFirst(out, less, pkg, result)
  {
    hide Linked, IsPath, NoRepeats, EndsIn, SinkPath, AtMost, FirstCycle, StrictOrder, LeadsTo, FromOnPath, IsSink;
    var back, last;
    ghost var tree;
    back, last, tree := Search(out, less, pkg, all);
    result := WalkBack(out, pkg, back, last, tree);
    TreePath(out, pkg, back, tree, last);
    SinkPaths(out, pkg);
    assert FirstPath(out, less, pkg, result, tree[last]);
  }

  lemma SinkPaths<N(!new), E>(out: Adjacency<N, E>, start: N)
    ensures SinkReachable(out, start) <==> exists q :: SinkPath(out, start, q)
  {
    if n :| Reach(out, start, n) && IsSink(out, n) {
      var q :| PathFromTo(out, q, start, n);
      assert SinkPath(out, start, q);
    }
    if q :| SinkPath(out, start, q) {
      assert PathFromTo(out, q, start, q[|q| - 1]);
    }
  }

  /** Without cycles below the start there is always a sink to find. */
  lemma AcyclicHasSink<N(!new), E>(out: Adjacency<N, E>, start: N, all: set<N>)
    requires forall u :: out(u).Keys <= all
    requires AcyclicBelow(out, start)
    ensures SinkReachable(out, start)
  {
    if !SinkReachable(out, start) {
      var reached := set n | n in all + {start} && Reach(out, start, n);
      ReachSelf(out, start);
      forall x | x in reached ensures HasNext(out, reached, x) {
        var y :| y in out(x);
        assert Edge(out, x, y);
        ReachStep(out, start, x, y);
      }
      var u := SuccessorsMakeCycle(out, reached, [start]);
    }
  }

  method PathToBottom<N(==, !new), E>(g: Graph<N, E>, less: (N, N) -> bool, pkg: N) returns (result: Steps<N, E>)
    requires StrictOrder(less)
    ensures BestPath(OutOf(g.nodes), less, pkg, result) && EdgeOnFirst(OutOf(g.nodes), less, pkg, result)
    ensures AcyclicBelow(OutOf(g.nodes), pkg) ==>
              result[0] == (pkg, None) && IsSink(OutOf(g.nodes), result[|result| - 1].0)
    ensures result != [] && forall i | 0 <= i < |result| - 1 :: StepsForth(g.nodes, result[i].0, result[i + 1])
    ensures AcyclicBelow(OutOf(g.nodes), pkg) ==>
              result[|result| - 1].0 !in g.nodes || g.nodes[result[|result| - 1].0] == map[]
  {
    ghost var all := set u, v | u in g.nodes && v in g.nodes[u] :: v;
    result := PathTo(OutOf(g.nodes), less, pkg, all);
    AcyclicPath(OutOf(g.nodes), less, pkg, all, result);
    forall i | 0 <= i < |result| - 1 ensures StepsForth(g.nodes, result[i].0, result[i + 1]) {
      assert LeadsTo(OutOf(g.nodes), result[i].0, result[i + 1]);
    }
  }

  ghost predicate AcyclicBelow<N(!new), E>(out: Adjacency<N, E>, start: N) {
    forall u :: Reach(out, start, u) ==> !OnCycle(out, u)
  }

  lemma AcyclicPath<N(!new), E>(out: Adjacency<N, E>, less: (N, N) -> bool, pkg: N, all: set<N>, result: Steps<N, E>)
    requires forall u :: out(u).Keys <= all
    requires BestPath(out, less, pkg, result) && EdgeOnFirst(out, less, pkg, result)
    ensures AcyclicBelow(out, pkg) ==> result[0] == (pkg, None) && IsSink(out, result[|result| - 1].0)
  {
    if AcyclicBelow(out, pkg) {
      AcyclicHasSink(out, pkg, all);
      ReachSelf(out, pkg);
      forall p ensures !CyclePath(out, pkg, p) {
        if CyclePath(out, pkg, p) {
          CycleThroughStart(out, pkg, p);
        }
      }
    }
  }

  lemma CycleThroughStart<N(!new), E>(out: Adjacency<N, E>, start: N, p: seq<N>)
    requires CyclePath(out, start, p)
    ensures OnCycle(out, start)
  {
    if |p| == 1 {
      ReachSelf(out, start);
      assert Edge(out, start, start);
    } else {
      assert Edge(out, p[0], p[1]);
      var rest := p[1..] + [start];
      forall i | 0 <= i < |rest| - 1 ensures Edge(out, rest[i], rest[i + 1]) {
        if i < |rest| - 2 { assert Edge(out, p[i + 1], p[i + 2]); }
      }
      assert PathFromTo(out, rest, p[1], start);
    }
  }

  /** A graph in which a cycle through 0 closes before the nearest sink. */
  predicate LoopedEdge(u: int, v: int) {
    (u, v) in {(0, 1), (1, 0), (0, 2), (2, 3), (3, 4)}
  }

  const LOOPED: seq<(int, int)> := [(0, 1), (1, 0), (0, 2), (2, 3), (3, 4)]

  lemma LoopedListed(u: int, v: int)
    ensures (u, v) in LOOPED <==> LoopedEdge(u, v)
  {
    var edge := (u, v);
    assert edge in LOOPED <==>
           edge == LOOPED[0] || edge == LOOPED[1] || edge == LOOPED[2] || edge == LOOPED[3] || edge == LOOPED[4];
  }

  ghost predicate IsLooped(out: Adjacency<int, ()>) {
    forall u, v :: Edge(out, u, v) <==> LoopedEdge(u, v)
  }

  lemma LoopedSinks(out: Adjacency<int, ()>, u: int)
    requires IsLooped(out)
    ensures IsSink(out, u) <==> u !in {0, 1, 2, 3}
  {
    if u in {0, 1, 2, 3} {
      var v := if u == 0 then 1 else if u == 1 then 0 else u + 1;
      assert Edge(out, u, v);
    } else {
      forall v ensures v !in out(u) {
        assert Edge(out, u, v) <==> LoopedEdge(u, v);
      }
      assert out(u).Keys == {};
    }
  }

  predicate IntLess(a: int, b: int) {
    a < b
  }

  lemma LoopedNear(out: Adjacency<int, ()>)
    requires IsLooped(out)
    ensures FirstCycle(out, IntLess, 0, [0, 1]) && SinkReachable(out, 0)
  {
    assert Edge(out, 0, 1) && Edge(out, 1, 0) && Edge(out, 0, 2) && Edge(out, 2, 3) && Edge(out, 3, 4);
    assert CyclePath(out, 0, [0, 1]);
    forall q | SinkPath(out, 0, q) ensures 2 < |q| {
      LoopedSinks(out, q[|q| - 1]);
    }
    assert PathFromTo(out, [0, 2, 3, 4], 0, 4);
    LoopedSinks(out, 4);
  }

  lemma LoopedNames(ns: seq<int>, k: nat, i: nat)
    requires Distinct(ns) && (forall j | 0 <= j < |ns| - 1 :: LoopedEdge(ns[j], ns[j + 1]))
    requires k < |ns| && ns[k] == 0 && i < |ns| && LoopedEdge(ns[i], ns[0])
    requires ns[|ns| - 1] !in {0, 1, 2, 3}
    ensures ns[0] == 1
  {
    assert |ns| > 2 ==> LoopedEdge(ns[1], ns[2]);
    assert i > 0 ==> LoopedEdge(ns[i - 1], ns[i]);
    if k > 0 {
      assert LoopedEdge(ns[k - 1], ns[k]);
      assert k > 1 ==> LoopedEdge(ns[k - 2], ns[k - 1]);
    }
  }

  /** Its path from 0 starts elsewhere: at 1, from where it goes on to 0. */
  lemma LoopedPath(out: Adjacency<int, ()>, result: Steps<int, ()>)
    requires IsLooped(out) && BestPath(out, IntLess, 0, result) && EdgeOnFirst(out, IntLess, 0, result)
    ensures result != [] && result[0].0 == 1 && result[0].1.Some?
  {
    hide LoopedEdge, FirstCycle, SinkPath, StartPath, IsSink, SinkReachable, NoRepeats, AtMost;
    LoopedNear(out);
    assert NoRepeats(result);
    LoopedSinks(out, result[|result| - 1].0);
    var ns := seq(|result|, i requires 0 <= i < |result| => result[i].0);
    forall j | 0 <= j < |ns| - 1 ensures LoopedEdge(ns[j], ns[j + 1]) {
      assert LeadsTo(out, result[j].0, result[j + 1]);
      assert Edge(out, ns[j], ns[j + 1]);
    }
    var path :| FirstPath(out, IntLess, 0, result, path);
    var k := |result| - |path|;
    assert path[0] == 0 by { StartsAt(out, 0, path); }
    var i :| 0 <= i < |result| && LeadsTo(out, result[i].0, result[0]);
    assert Edge(out, ns[i], ns[0]);
    assert Distinct(ns) by { NamesDistinct(result, ns); }
    LoopedNames(ns, k, i);
  }

  lemma StartsAt<N(!new), E>(out: Adjacency<N, E>, start: N, p: seq<N>)
    requires StartPath(out, start, p)
    ensures p != [] && p[0] == start
  {
  }

  lemma NamesDistinct<N(!new), E>(steps: Steps<N, E>, ns: seq<N>)
    requires NoRepeats(steps) && |ns| == |steps| && forall i | 0 <= i < |ns| :: ns[i] == steps[i].0
    ensures Distinct(ns)
  {
  }

  /** A graph of the given edges. */
  method GraphOf(edges: seq<(int, int)>) returns (g: Graph<int, ()>)
    ensures forall u, v :: Edge(OutOf(g.nodes), u, v) <==> (u, v) in edges
  {
    g := new Graph<int, ()>();
    for i := 0 to |edges|
      invariant fresh(g)
      invariant forall u, v :: Edge(OutOf(g.nodes), u, v) <==> (u, v) in edges[..i]
    {
      assert edges[..i + 1] == edges[..i] + [edges[i]];
      g.Link(edges[i].0, edges[i].1, ());
    }
    assert edges[..|edges|] == edges;
  }

  /** The documented form, the start first and without an edge, fails on this graph. */
  method LoopedExample() returns (result: Steps<int, ()>)
    ensures result != [] && result[0].0 == 1 && result[0].1.Some?
  {
    hide LoopedEdge, BestPath, EdgeOnFirst;
    var g := GraphOf(LOOPED);
    forall u, v ensures Edge(OutOf(g.nodes), u, v) <==> LoopedEdge(u, v) {
      LoopedListed(u, v);
    }
    result := PathToBottom(g, IntLess, 0);
    LoopedPath(OutOf(g.nodes), result);
  }

  /** The predecessors of a node. */
  function InTo<N(!new), E>(nodes: Nodes<N, E>): Adjacency<N, E> {
    n => map p | p in nodes && n in nodes[p] :: nodes[p][n]
  }

  /** An edge of the one graph is an edge of the other, turned round. */
  lemma EdgesTurned<N(!new), E>(nodes: Nodes<N, E>, p: N, n: N)
    ensures Edge(InTo(nodes), n, p) <==> p in nodes && n in nodes[p]
    ensures Edge(OutOf(nodes), p, n) <==> p in nodes && n in nodes[p]
    ensures p in nodes && n in nodes[p] ==> InTo(nodes)(n)[p] == nodes[p][n]
  {
  }

  /** Paths up are paths down, turned round. */
  lemma PathsTurned<N(!new), E>(nodes: Nodes<N, E>, p: seq<N>)
    requires p != []
    ensures IsPath(InTo(nodes), p) <==> IsPath(OutOf(nodes), Reversed(p))
  {
    var q := Reversed(p);
    forall u, v ensures Edge(InTo(nodes), u, v) <==> Edge(OutOf(nodes), v, u) {
      EdgesTurned(nodes, v, u);
    }
    hide Edge, InTo, OutOf;
    if IsPath(InTo(nodes), p) {
      forall i | 0 <= i < |q| - 1 ensures Edge(OutOf(nodes), q[i], q[i + 1]) {
        var k := |p| - 2 - i;
        assert Edge(InTo(nodes), p[k], p[k + 1]);
      }
    }
    if IsPath(OutOf(nodes), q) {
      forall i | 0 <= i < |p| - 1 ensures Edge(InTo(nodes), p[i], p[i + 1]) {
        var k := |p| - 2 - i;
        assert Edge(OutOf(nodes), q[k], q[k + 1]);
      }
    }
  }

  lemma ReachTurned<N(!new), E>(nodes: Nodes<N, E>, u: N, v: N)
    ensures Reach(InTo(nodes), u, v) <==> Reach(OutOf(nodes), v, u)
  {
    if p :| PathFromTo(InTo(nodes), p, u, v) {
      PathsTurned(nodes, p);
      assert PathFromTo(OutOf(nodes), Reversed(p), v, u);
    }
    if p :| PathFromTo(OutOf(nodes), p, v, u) {
      PathsTurned(nodes, Reversed(p));
      assert Reversed(Reversed(p)) == p;
      assert PathFromTo(InTo(nodes), Reversed(p), u, v);
    }
  }

  /** A cycle turned round is a cycle. */
  lemma CycleTurned<N(!new), E>(nodes: Nodes<N, E>, u: N)
    requires OnCycle(InTo(nodes), u)
    ensures OnCycle(OutOf(nodes), u)
  {
    var v :| Edge(InTo(nodes), u, v) && Reach(InTo(nodes), v, u);
    EdgesTurned(nodes, v, u);
    ReachTurned(nodes, v, u);
    var p :| PathFromTo(OutOf(nodes), p, u, v);
    assert CyclePath(OutOf(nodes), u, p);
    CycleThroughStart(OutOf(nodes), u, p);
  }

  /** Nothing that leads to the node lies on a cycle. */
  ghost predicate AcyclicAbove<N(!new), E>(nodes: Nodes<N, E>, n: N) {
    forall u :: Reach(OutOf(nodes), u, n) ==> !OnCycle(OutOf(nodes), u)
  }

  lemma AboveIsBelow<N(!new), E>(nodes: Nodes<N, E>, n: N)
    requires AcyclicAbove(nodes, n)
    ensures AcyclicBelow(InTo(nodes), n)
  {
    forall u | Reach(InTo(nodes), n, u) ensures !OnCycle(InTo(nodes), u) {
      ReachTurned(nodes, n, u);
      if OnCycle(InTo(nodes), u) {
        CycleTurned(nodes, u);
      }
    }
  }

  /** The graph has an edge from `u` to `v`, */
  predicate HasEdge<N, E>(nodes: Nodes<N, E>, u: N, v: N) {
    u in nodes && v in nodes[u]
  }

  /** and `step` goes against it, to its source, and carries it. */
  predicate StepsBack<N, E(==)>(nodes: Nodes<N, E>, v: N, step: (N, Option<E>)) {
    HasEdge(nodes, step.0, v) && step.1 == Some(nodes[step.0][v])
  }

  /** The step goes along an edge and carries it. */
  predicate StepsForth<N, E(==)>(nodes: Nodes<N, E>, u: N, step: (N, Option<E>)) {
    HasEdge(nodes, u, step.0) && step.1 == Some(nodes[u][step.0])
  }

  /** A path up to a node without predecessors. */
  ghost predicate TopPath<N(!new), E>(nodes: Nodes<N, E>, pkg: N, p: seq<N>) {
    && p != [] && p[0] == pkg
    && (forall i | 0 <= i < |p| - 1 :: HasEdge(nodes, p[i + 1], p[i]))
    && (forall n <- nodes :: p[|p| - 1] !in nodes[n])
  }

  lemma TopPathIff<N(!new), E>(nodes: Nodes<N, E>, pkg: N, p: seq<N>)
    ensures TopPath(nodes, pkg, p) <==> SinkPath(InTo(nodes), pkg, p)
  {
    if p != [] {
      forall u, v ensures Edge(InTo(nodes), u, v) <==> HasEdge(nodes, v, u) {
        EdgesTurned(nodes, v, u);
      }
      SinkIff(nodes, p[|p| - 1]);
      hide Edge, HasEdge, InTo, IsSink;
      assert IsPath(InTo(nodes), p) <==> forall i | 0 <= i < |p| - 1 :: HasEdge(nodes, p[i + 1], p[i]);
    }
  }

  lemma SinkIff<N(!new), E>(nodes: Nodes<N, E>, last: N)
    ensures IsSink(InTo(nodes), last) <==> forall n <- nodes :: last !in nodes[n]
  {
    assert forall n :: n in InTo(nodes)(last) <==> n in nodes && last in nodes[n];
    if forall n <- nodes :: last !in nodes[n] {
      assert InTo(nodes)(last).Keys == {};
    }
  }

  /** Up the graph: each step goes to a node with an edge to the one before, and carries that edge. The
      path passes the start, and from there on no path up to a node without predecessors comes before it. */
  method PathToTop<N(==, !new), E>(g: Graph<N, E>, less: (N, N) -> bool, pkg: N) returns (result: Steps<N, E>)
    requires StrictOrder(less)
    ensures BestPath(InTo(g.nodes), less, pkg, result) && EdgeOnFirst(InTo(g.nodes), less, pkg, result)
    ensures result != [] && forall i | 0 <= i < |result| - 1 :: StepsBack(g.nodes, result[i].0, result[i + 1])
    ensures exists path :: EndsIn(result, path) && path[0] == pkg
              && forall q | TopPath(g.nodes, pkg, q) :: AtMost(less, path, q)
    ensures AcyclicAbove(g.nodes, pkg) ==>
              result[0] == (pkg, None) && forall n <- g.nodes :: result[|result| - 1].0 !in g.nodes[n]
  {
    result := PathTo(InTo(g.nodes), less, pkg, g.nodes.Keys);
    AcyclicPath(InTo(g.nodes), less, pkg, g.nodes.Keys, result);
    StepsUp(g.nodes, result);
    FirstUp(g.nodes, less, pkg, result);
    if AcyclicAbove(g.nodes, pkg) {
      AboveIsBelow(g.nodes, pkg);
      SinkIff(g.nodes, result[|result| - 1].0);
    }
  }

  lemma StepsUp<N(!new), E>(nodes: Nodes<N, E>, result: Steps<N, E>)
    requires EdgePath(InTo(nodes), result)
    ensures forall i | 0 <= i < |result| - 1 :: StepsBack(nodes, result[i].0, result[i + 1])
  {
    forall i | 0 <= i < |result| - 1 ensures StepsBack(nodes, result[i].0, result[i + 1]) {
      assert LeadsTo(InTo(nodes), result[i].0, result[i + 1]);
      EdgesTurned(nodes, result[i + 1].0, result[i].0);
    }
  }

  lemma FirstUp<N(!new), E>(nodes: Nodes<N, E>, less: (N, N) -> bool, pkg: N, result: Steps<N, E>)
    requires BestPath(InTo(nodes), less, pkg, result)
    ensures exists path :: EndsIn(result, path) && path[0] == pkg
              && forall q | TopPath(nodes, pkg, q) :: AtMost(less, path, q)
  {
    var path :| FirstPath(InTo(nodes), less, pkg, result, path);
    forall q | TopPath(nodes, pkg, q) ensures AtMost(less, path, q) {
      TopPathIff(nodes, pkg, q);
    }
  }
}
