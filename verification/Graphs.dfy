/** Directed graphs as adjacency, paths in them, and the facts about paths that the
    sorting and searching algorithms rest on. */
module GraphPaths {
  import opened Sequences

  /** The successors of a node, each with its edge value. */
  type Adjacency<!N, E> = N -> map<N, E>

  predicate Edge<N, E>(out: Adjacency<N, E>, u: N, v: N) {
    v in out(u)
  }

  ghost predicate IsPath<N, E>(out: Adjacency<N, E>, p: seq<N>) {
    |p| >= 1 && forall i | 0 <= i < |p| - 1 :: Edge(out, p[i], p[i + 1])
  }

  ghost predicate PathFromTo<N, E>(out: Adjacency<N, E>, p: seq<N>, u: N, v: N) {
    IsPath(out, p) && p[0] == u && p[|p| - 1] == v
  }

  ghost predicate Reach<N(!new), E>(out: Adjacency<N, E>, u: N, v: N) {
    exists p :: PathFromTo(out, p, u, v)
  }

  /** There is a path with at least one edge from the node to itself. */
  ghost predicate OnCycle<N(!new), E>(out: Adjacency<N, E>, u: N) {
    exists v :: Edge(out, u, v) && Reach(out, v, u)
  }

  /** No cycle visits two nodes; a node may still have an edge to itself. */
  ghost predicate AcyclicButLoops<N(!new), E>(out: Adjacency<N, E>) {
    forall u, v | Edge(out, u, v) && u != v :: !Reach(out, v, u)
  }

  lemma ReachSelf<N(!new), E>(out: Adjacency<N, E>, u: N)
    ensures Reach(out, u, u)
  {
    assert PathFromTo(out, [u], u, u);
  }

  lemma ReachStep<N(!new), E>(out: Adjacency<N, E>, u: N, v: N, w: N)
    requires Reach(out, u, v) && Edge(out, v, w)
    ensures Reach(out, u, w)
  {
    var p :| PathFromTo(out, p, u, v);
    assert PathFromTo(out, p + [w], u, w);
  }

  ghost function Elems<N>(s: seq<N>): set<N> {
    set x | x in s
  }

  lemma {:induction false} DistinctSize<N>(s: seq<N>)
    requires Distinct(s)
    ensures |Elems(s)| == |s|
  {
    if s != [] {
      var front, last := s[..|s| - 1], s[|s| - 1];
      DistinctSize(front);
      assert s == front + [last];
      assert last !in front;
      assert Elems(s) == Elems(front) + {last};
    }
  }

  lemma DistinctWithin<N>(s: seq<N>, all: set<N>)
    requires Distinct(s) && Elems(s) <= all
    ensures |s| <= |all|
  {
    DistinctSize(s);
    SubsetSize(Elems(s), all);
  }

  lemma SubsetSize<N>(a: set<N>, b: set<N>)
    requires a <= b
    ensures |a| <= |b|
  {
    assert b == a + (b - a);
  }

  lemma WalkCloses<N(!new), E>(out: Adjacency<N, E>, walk: seq<N>, next: N)
    requires IsPath(out, walk) && next in walk && Edge(out, walk[|walk| - 1], next)
    ensures OnCycle(out, walk[|walk| - 1]) && Reach(out, walk[0], walk[|walk| - 1])
  {
    var last := walk[|walk| - 1];
    var i :| 0 <= i < |walk| && walk[i] == next;
    assert PathFromTo(out, walk[i..], next, last);
    assert PathFromTo(out, walk, walk[0], last);
    assert Edge(out, last, next) && Reach(out, next, last);
  }

  ghost predicate HasNext<N(!new), E>(out: Adjacency<N, E>, all: set<N>, x: N) {
    exists y :: y in all && Edge(out, x, y)
  }

  /** A finite set in which every node has a successor contains a cycle. */
  lemma SuccessorsMakeCycle<N(!new), E>(out: Adjacency<N, E>, all: set<N>, walk: seq<N>) returns (u: N)
    requires |walk| >= 1 && IsPath(out, walk) && Distinct(walk) && Elems(walk) <= all
    requires forall x {:trigger HasNext(out, all, x)} | x in all :: HasNext(out, all, x)
    ensures u in all && OnCycle(out, u) && Reach(out, walk[0], u)
    decreases |all| - |walk|
  {
    var last := walk[|walk| - 1];
    assert HasNext(out, all, last);
    var next :| next in all && Edge(out, last, next);
    if next in walk {
      u := last;
      WalkCloses(out, walk, next);
    } else {
      var longer := walk + [next];
      assert Elems(longer) == Elems(walk) + {next};
      DistinctWithin(longer, all);
      u := SuccessorsMakeCycle(out, all, longer);
    }
  }
}

/** The graph of `utils/graph.rs`, and the sorter built on it. */
module Graphs {
  import opened Sequences
  import opened GraphPaths

  type Nodes<N(==), E> = map<N, map<N, E>>

  /** A missing node has no edges. */
  function OutOf<N(!new), E>(nodes: Nodes<N, E>): Adjacency<N, E> {
    n => if n in nodes then nodes[n] else map[]
  }

  /** Every edge leads to a node that has an entry of its own. */
  ghost predicate Closed<N(!new), E>(nodes: Nodes<N, E>) {
    forall u, v | u in nodes && v in nodes[u] :: v in nodes
  }

  /** Each listed node comes after its successors, except itself and those that lead back to it. */
  ghost predicate PostOrdered<N(!new), E>(nodes: Nodes<N, E>, order: seq<N>) {
    forall i, v | 0 <= i < |order| && Edge(OutOf(nodes), order[i], v) ::
      v in nodes && (v == order[i] || v in order[..i] || Reach(OutOf(nodes), v, order[i]))
  }

  /** Closing a node whose successors are all listed or still open. */
  lemma PushPostOrdered<N(!new), E>(nodes: Nodes<N, E>, order: seq<N>, node: N, open: set<N>)
    requires PostOrdered(nodes, order) && node in nodes
    requires forall v <- nodes[node] :: v in nodes && (v == node || v in order || v in open)
    requires forall g <- open :: Reach(OutOf(nodes), g, node)
    ensures PostOrdered(nodes, order + [node])
  {
    var order', out := order + [node], OutOf(nodes);
    forall i, v | 0 <= i < |order'| && Edge(out, order'[i], v)
      ensures v in nodes && (v == order'[i] || v in order'[..i] || Reach(out, v, order'[i]))
    {
      if i < |order| {
        assert Edge(out, order[i], v) && order'[..i] == order[..i];
      } else {
        assert order'[..i] == order;
      }
    }
  }

  class Graph<N(==, !new), E> {
    var nodes: Nodes<N, E>

    constructor ()
      ensures nodes == map[]
    {
      nodes := map[];
    }

    method Add(node: N)
      modifies this
      ensures nodes == if node in old(nodes) then old(nodes) else old(nodes)[node := map[]]
    {
      if node !in nodes {
        nodes := nodes[node := map[]];
      }
    }

    /** Adds an edge, with a default value when there was none. */
    method Link(node: N, child: N, default: E)
      modifies this
      ensures forall u, v :: Edge(OutOf(nodes), u, v) <==> Edge(OutOf(old(nodes)), u, v) || (u == node && v == child)
      ensures nodes.Keys == old(nodes.Keys) + {node}
      ensures forall u, v :: Edge(OutOf(old(nodes)), u, v) ==>
                Edge(OutOf(nodes), u, v) && OutOf(nodes)(u)[v] == OutOf(old(nodes))(u)[v]
    {
      if node !in nodes {
        nodes := nodes[node := map[]];
      }
      if child !in nodes[node] {
        nodes := nodes[node := nodes[node][child := default]];
      }
    }

    /** A topological sort. It gives up (a panic in the program) exactly when an edge leads to a
        node that was never added. */
    method Sort() returns (ok: bool, order: seq<N>)
      ensures ok <==> Closed(nodes)
      ensures ok ==> Distinct(order) && Elems(order) == nodes.Keys && PostOrdered(nodes, order)
    {
      order := [];
      var marks := {};
      var todo := nodes.Keys;
      while todo != {}
        invariant todo <= nodes.Keys && nodes.Keys - todo <= marks
        invariant marks == Elems(order) <= nodes.Keys && Distinct(order) && PostOrdered(nodes, order)
      {
        var node :| node in todo;
        todo := todo - {node};
        ok, order, marks := SortInnerVisit(node, order, marks, {});
        if !ok {
          return false, [];
        }
      }
      assert Closed(nodes) by {
        forall u, v | u in nodes && v in nodes[u] ensures v in nodes {
          assert u in Elems(order);
          var i :| 0 <= i < |order| && order[i] == u;
          assert Edge(OutOf(nodes), order[i], v);
        }
      }
      ok := true;
    }

    /** Depth first visit; `open` are the nodes whose visit is under way. */
    method SortInnerVisit(node: N, dst: seq<N>, marks: set<N>, ghost open: set<N>)
      returns (ok: bool, dst': seq<N>, marks': set<N>)
      requires marks == Elems(dst) + open && Elems(dst) !! open && marks <= nodes.Keys
      requires Distinct(dst) && PostOrdered(nodes, dst)
      requires forall g <- open :: Reach(OutOf(nodes), g, node)
      ensures !ok ==> node !in nodes || !Closed(nodes)
      ensures ok ==> node in nodes && node in marks' && dst <= dst' && marks <= marks'
      ensures ok ==> marks' == Elems(dst') + open && Elems(dst') !! open && marks' <= nodes.Keys
      ensures ok ==> Distinct(dst') && PostOrdered(nodes, dst')
      decreases nodes.Keys - marks
    {
      if node in marks {
        return true, dst, marks;
      }
      if node !in nodes {
        return false, dst, marks;
      }
      ghost var out := OutOf(nodes);
      ghost var open' := open + {node};
      dst', marks' := dst, marks + {node};
      ReachSelf(out, node);
      var todo := nodes[node].Keys;
      while todo != {}
        invariant todo <= nodes[node].Keys && nodes[node].Keys - todo <= marks'
        invariant dst <= dst' && marks + {node} <= marks'
        invariant marks' == Elems(dst') + open' && Elems(dst') !! open' && marks' <= nodes.Keys
        invariant Distinct(dst') && PostOrdered(nodes, dst')
      {
        var child :| child in todo;
        todo := todo - {child};
        forall g | g in open' ensures Reach(out, g, child) {
          ReachStep(out, g, node, child);
        }
        ok, dst', marks' := SortInnerVisit(child, dst', marks', open');
        if !ok {
          assert !Closed(nodes);
          return;
        }
      }
      ghost var before := dst';
      dst' := dst' + [node];
      assert Elems(dst') == Elems(before) + {node};
      PushPostOrdered(nodes, before, node, open);
      ok := true;
    }
  }

  /** Whether every edge between two nodes leads from a later to an earlier place. */
  ghost predicate SuccessorsFirst<N(!new), E>(nodes: Nodes<N, E>, order: seq<N>) {
    forall i, j | 0 <= i < |order| && 0 <= j < |order| && Edge(OutOf(nodes), order[i], order[j]) && i != j :: j < i
  }

  /** A sort puts every successor first exactly when the graph has no cycle but self-loops. */
  lemma SuccessorsFirstIffAcyclic<N(!new), E>(nodes: Nodes<N, E>, order: seq<N>)
    requires Distinct(order) && Elems(order) == nodes.Keys && PostOrdered(nodes, order)
    ensures SuccessorsFirst(nodes, order) <==> AcyclicButLoops(OutOf(nodes))
  {
    var out := OutOf(nodes);
    if AcyclicButLoops(out) {
      forall i, j | 0 <= i < |order| && 0 <= j < |order| && Edge(out, order[i], order[j]) && i != j ensures j < i {
        var u, v := order[i], order[j];
        assert u != v by { assert i < j || j < i; }
        assert Edge(out, u, v) && !Reach(out, v, u);
        assert v in order[..i];
      }
    }
    if SuccessorsFirst(nodes, order) {
      forall u, v | Edge(out, u, v) && u != v ensures !Reach(out, v, u) {
        if Reach(out, v, u) {
          var p :| PathFromTo(out, p, v, u);
          assert u in Elems(order);
          var i :| 0 <= i < |order| && order[i] == u;
          assert v in nodes;
          assert v in Elems(order);
          var j :| 0 <= j < |order| && order[j] == v;
          PathGoesEarlier(nodes, order, p, j, i);
        }
      }
    }
  }

  lemma {:induction false} PathGoesEarlier<N(!new), E>(nodes: Nodes<N, E>, order: seq<N>, p: seq<N>, from: nat, to: nat)
    requires Distinct(order) && Elems(order) == nodes.Keys && PostOrdered(nodes, order) && SuccessorsFirst(nodes, order)
    requires from < |order| && to < |order| && PathFromTo(OutOf(nodes), p, order[from], order[to])
    ensures to <= from
    decreases |p|
  {
    if |p| > 1 {
      var out := OutOf(nodes);
      assert Edge(out, p[0], p[1]);
      assert p[1] in nodes;
      assert p[1] in Elems(order);
      var k :| 0 <= k < |order| && order[k] == p[1];
      assert IsPath(out, p[1..]) by {
        forall i | 0 <= i < |p[1..]| - 1 ensures Edge(out, p[1..][i], p[1..][i + 1]) {
          assert Edge(out, p[i + 1], p[i + 2]);
        }
      }
      PathGoesEarlier(nodes, order, p[1..], k, to);
    }
  }
}

module TopologicalSorters {
  import opened Sequences
  import opened GraphPaths
  import opened Graphs

  class TopologicalSorter<N(==, !new)> {
    const graph: Graph<N, ()>

    ghost predicate Valid()
      reads graph
    {
      Closed(graph.nodes)
    }

    ghost function Vertices(): set<N>
      reads graph
    {
      graph.nodes.Keys
    }

    /** `from` was declared to depend on `to`. */
    ghost predicate DependsOn(from: N, to: N)
      reads graph
    {
      Edge(OutOf(graph.nodes), to, from)
    }

    constructor ()
      ensures Valid() && fresh(graph) && Vertices() == {}
    {
      graph := new Graph();
    }

    method AddVertex(item: N)
      requires Valid()
      modifies graph
      ensures Valid() && Vertices() == old(Vertices()) + {item}
      ensures forall a, b :: DependsOn(a, b) <==> old(DependsOn(a, b))
    {
      graph.Add(item);
    }

    method AddDep(from: N, to: N)
      requires Valid()
      modifies graph
      ensures Valid() && Vertices() == old(Vertices()) + {from, to}
      ensures forall a, b :: DependsOn(a, b) <==> old(DependsOn(a, b)) || (a == from && b == to)
    {
      graph.Add(from);
      ghost var before := graph.nodes;
      graph.Link(to, from, ());
      forall u, v | u in graph.nodes && v in graph.nodes[u] ensures v in graph.nodes {
        assert Edge(OutOf(graph.nodes), u, v);
        assert Edge(OutOf(before), u, v) || v == from;
      }
    }

    method TopologicalSort() returns (order: seq<N>)
      requires Valid()
      ensures Distinct(order) && Elems(order) == Vertices() && PostOrdered(graph.nodes, order)
    {
      var ok;
      ok, order := graph.Sort();
    }

    /** Every vertex once. A dependency comes before its dependent unless the dependency, directly
        or not, depends on it too; so they all do exactly when only self-dependencies are circular. */
    method DependencySort() returns (order: seq<N>)
      requires Valid()
      ensures Distinct(order) && Elems(order) == Vertices()
      ensures forall i, j | 0 <= i < |order| && 0 <= j < |order| && i != j && DependsOn(order[i], order[j]) ::
                j < i || Reach(OutOf(graph.nodes), order[i], order[j])
      ensures DependenciesFirst(graph.nodes, order) <==> AcyclicButLoops(OutOf(graph.nodes))
    {
      var sorted := TopologicalSort();
      order := Reversed(sorted);
      ReversedSame(sorted);
      ReversedFirst(graph.nodes, sorted);
      SuccessorsFirstIffAcyclic(graph.nodes, sorted);
      forall i, j | 0 <= i < |order| && 0 <= j < |order| && i != j && DependsOn(order[i], order[j])
        ensures j < i || Reach(OutOf(graph.nodes), order[i], order[j])
      {
        ReversedOrder(graph.nodes, sorted, i, j);
      }
    }
  }

  ghost predicate DependenciesFirst<N(!new)>(nodes: Nodes<N, ()>, order: seq<N>) {
    forall i, j | 0 <= i < |order| && 0 <= j < |order| && Edge(OutOf(nodes), order[j], order[i]) && i != j :: j < i
  }

  lemma ReversedSame<N>(sorted: seq<N>)
    requires Distinct(sorted)
    ensures Distinct(Reversed(sorted)) && Elems(Reversed(sorted)) == Elems(sorted)
  {
    var order, n := Reversed(sorted), |sorted|;
    forall x ensures x in order <==> x in sorted {
      if x in sorted {
        var i :| 0 <= i < n && sorted[i] == x;
        assert order[n - 1 - i] == x;
      }
    }
  }

  lemma ReversedOrder<N(!new)>(nodes: Nodes<N, ()>, sorted: seq<N>, i: nat, j: nat)
    requires Distinct(sorted) && PostOrdered(nodes, sorted)
    requires i < |sorted| && j < |sorted| && i != j
    ensures var order, out := Reversed(sorted), OutOf(nodes);
            Edge(out, order[j], order[i]) ==> j < i || Reach(out, order[i], order[j])
  {
    var out, j', i' := OutOf(nodes), |sorted| - 1 - j, |sorted| - 1 - i;
    if Edge(out, sorted[j'], sorted[i']) && !Reach(out, sorted[i'], sorted[j']) {
      assert sorted[i'] != sorted[j'] && sorted[i'] in sorted[..j'];
    }
  }

  lemma ReversedFirst<N(!new)>(nodes: Nodes<N, ()>, sorted: seq<N>)
    ensures SuccessorsFirst(nodes, sorted) <==> DependenciesFirst(nodes, Reversed(sorted))
  {
    var order, out, n := Reversed(sorted), OutOf(nodes), |sorted|;
    if SuccessorsFirst(nodes, sorted) {
      forall i, j | 0 <= i < n && 0 <= j < n && Edge(out, order[j], order[i]) && i != j ensures j < i {
        assert Edge(out, sorted[n - 1 - j], sorted[n - 1 - i]);
      }
    }
    if DependenciesFirst(nodes, order) {
      forall i, j | 0 <= i < n && 0 <= j < n && Edge(out, sorted[i], sorted[j]) && i != j ensures j < i {
        assert sorted[i] == order[n - 1 - i] && sorted[j] == order[n - 1 - j];
      }
    }
  }
}
