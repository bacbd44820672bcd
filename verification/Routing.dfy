/** Which catch and status nodes hear of an error, and in which order. */
module Routing {
  import opened Options
  import opened Sequences
  import opened FlowGroups

  datatype Scope = All | SameGroup | Nodes(ids: seq<string>)

  datatype ScopedNode = ScopedNode(id: string, group: Option<string>, scope: Scope, uncaught: bool)

  /** A node that reports, and the group it is in. */
  datatype Reporter = Reporter(id: string, group: Option<string>)

  // ---- Candidates -----------------------------------------------------------

  /** A node restricted to its group hears only from inside it; one restricted to some nodes only from those. */
  ghost predicate Hears(groups: Groups, reporter: Reporter, node: ScopedNode)
    requires WellMade(groups)
  {
    match node.scope
    case All => true
    case Nodes(ids) => reporter.id in ids
    case SameGroup =>
      node.group.Some? ==> reporter.group.Some? && node.group.value in Chain(groups, reporter.group.value)
  }

  /** What each scope means: every reporter, the listed ones, or those in the node's group or one that
      links lead up from to it. A node in no group is not restricted by the last. */
  lemma HearsIff(groups: Groups, reporter: Reporter, node: ScopedNode)
    requires WellMade(groups)
    ensures node.scope.All? ==> Hears(groups, reporter, node)
    ensures node.scope.Nodes? ==> (Hears(groups, reporter, node) <==> reporter.id in node.scope.ids)
    ensures node.scope.SameGroup? ==>
              (Hears(groups, reporter, node) <==>
                 node.group.None? || (reporter.group.Some? && LeadsUp(groups, reporter.group.value, node.group.value)))
  {
    if node.scope.SameGroup? && node.group.Some? && reporter.group.Some? {
      OnChainIff(groups, reporter.group.value, node.group.value);
    }
  }

  ghost predicate LeadsUp(groups: Groups, from: string, to: string) {
    exists path :: LinkPath(groups, from, path) && path[|path| - 1] == to
  }

  /** Links to the node's group for the first time give the distance. */
  lemma DistanceIs(groups: Groups, reporter: Reporter, node: ScopedNode, path: seq<string>)
    requires WellMade(groups) && reporter.group.Some? && node.group.Some?
    requires ClimbsTo(groups, reporter.group.value, node.group.value, path)
    ensures Distance(groups, reporter, node) == |path| - 1
  {
    var chain := Chain(groups, reporter.group.value);
    LinkPathInChain(groups, reporter.group.value, path);
    assert forall i | 0 <= i < |path| :: chain[i] == path[i];
    DistanceUnique(chain, node.group, |path| - 1, true);
  }

  /** Without a group there are no steps to take; without the target, all the way up. */
  lemma DistanceElse(groups: Groups, reporter: Reporter, node: ScopedNode)
    requires WellMade(groups)
    ensures reporter.group.None? ==> Distance(groups, reporter, node) == 0
    ensures reporter.group.Some? && !(node.group.Some? && LeadsUp(groups, reporter.group.value, node.group.value)) ==>
              forall way | WayUp(groups, reporter.group.value, way) :: Distance(groups, reporter, node) == |way|
  {
    if reporter.group.Some? && !(node.group.Some? && LeadsUp(groups, reporter.group.value, node.group.value)) {
      var chain := Chain(groups, reporter.group.value);
      if node.group.Some? {
        OnChainIff(groups, reporter.group.value, node.group.value);
      }
      assert !(node.group.Some? && node.group.value in chain);
      DistanceUnique(chain, node.group, Hops(chain, node.group), false);
      forall way | WayUp(groups, reporter.group.value, way) ensures |way| == |chain| {
        WayUpUnique(groups, reporter.group.value, way);
      }
    }
  }

  /** For example, a catch node for its group hears an error in a group inside that one. */
  method EnclosingExample() returns (outcome: Outcome, delivered: seq<Candidate>)
    ensures outcome == Handled(true)
    ensures delivered == [Candidate(1, ScopedNode("catch", Some("outer"), SameGroup, false))]
  {
    var configs := [GroupConfig("outer", "f", None), GroupConfig("inner", "f", Some("outer"))];
    var ok, groups := PopulateGroups("f", configs);
    ExampleGroups(configs, ok, groups);
    var node := ScopedNode("catch", Some("outer"), SameGroup, false);
    var reporter := Reporter("reporter", Some("inner"));
    ghost var ranking;
    outcome, delivered, ranking := HandleError(groups, reporter, [node], _ => true);
    var path := ["inner", "outer"];
    assert LinkPath(groups, "inner", path) && ClimbsTo(groups, "inner", "outer", path);
    HearsIff(groups, reporter, node);
    DistanceIs(groups, reporter, node, path);
    OnlyOne(groups, reporter, node, ranking);
  }

  lemma ExampleGroups(configs: seq<GroupConfig>, ok: bool, groups: Groups)
    requires configs == [GroupConfig("outer", "f", None), GroupConfig("inner", "f", Some("outer"))]
    requires ok <==> ParentsFirst("f", configs)
    requires ok ==> AllMade("f", configs, |configs|, groups) && WellMade(groups)
    ensures ok && WellMade(groups) && Link(groups, "inner", "outer")
  {
    assert configs[..1][0] == configs[0] && configs[..2] == configs;
    assert Listed("f", configs[..1], "outer");
    assert Listed("f", configs, "outer") by { assert configs[0].id == "outer"; }
    assert Listed("f", configs, "inner") by { assert configs[1].id == "inner"; }
    assert MadeFrom("f", configs, 2, "inner", groups["inner"]) && MadeFrom("f", configs, 2, "outer", groups["outer"]);
  }

  lemma OnlyOne(groups: Groups, reporter: Reporter, node: ScopedNode, cs: seq<Candidate>)
    requires WellMade(groups) && IsRanking(groups, reporter, [node], cs) && Hears(groups, reporter, node)
    ensures cs == [Candidate(Distance(groups, reporter, node), node)]
  {
    var one := [Candidate(Distance(groups, reporter, node), node)];
    forall d: nat ensures At(one, d) == HearingAt(groups, reporter, [node], d) {
      assert [node][..0] == [] && one[..0] == [];
    }
    assert IsRanking(groups, reporter, [node], one);
    forall d: nat ensures At(one, d) == At(cs, d) {
      assert At(one, d) == HearingAt(groups, reporter, [node], d);
    }
    SortedUnique(one, cs);
  }

  /** Parent steps from the reporter's group to the node's; none to take when the reporter is in no group. */
  ghost function Distance(groups: Groups, reporter: Reporter, node: ScopedNode): (d: nat)
    requires WellMade(groups)
  {
    if reporter.group.None? then 0 else Hops(Chain(groups, reporter.group.value), node.group)
  }

  /** Whether looking at a node climbs past a group whose parent is gone, which the program does not
      survive: its scope does not rule it out at once, and it is in no group on the way. */
  ghost predicate Stranded(groups: Groups, reporter: Reporter, node: ScopedNode)
    requires WellMade(groups)
  {
    && (node.scope.Nodes? ==> reporter.id in node.scope.ids)
    && reporter.group.Some? && Dangles(groups, reporter.group.value)
    && !(node.group.Some? && node.group.value in Chain(groups, reporter.group.value))
  }

  datatype Candidate = Candidate(distance: nat, node: ScopedNode)

  /** The candidates at one distance, in order. */
  ghost function At(cs: seq<Candidate>, d: nat): (ns: seq<ScopedNode>) {
    if cs == [] then []
    else At(cs[..|cs| - 1], d) + (if cs[|cs| - 1].distance == d then [cs[|cs| - 1].node] else [])
  }

  /** The nodes that hear the reporter from one distance, in the order of the flow. */
  ghost function HearingAt(groups: Groups, reporter: Reporter, nodes: seq<ScopedNode>, d: nat): (ns: seq<ScopedNode>)
    requires WellMade(groups)
  {
    if nodes == [] then []
    else
      var last := nodes[|nodes| - 1];
      HearingAt(groups, reporter, nodes[..|nodes| - 1], d)
      + (if Hears(groups, reporter, last) && Distance(groups, reporter, last) == d then [last] else [])
  }

  /** Those of a longer flow come after those of its beginning. */
  lemma {:induction false} HearingConcat(groups: Groups, reporter: Reporter, nodes: seq<ScopedNode>,
                                         more: seq<ScopedNode>, d: nat)
    requires WellMade(groups)
    ensures HearingAt(groups, reporter, nodes + more, d)
            == HearingAt(groups, reporter, nodes, d) + HearingAt(groups, reporter, more, d)
    ensures |more| == 1 ==>
              HearingAt(groups, reporter, more, d)
              == if Hears(groups, reporter, more[0]) && Distance(groups, reporter, more[0]) == d then more else []
  {
    hide WellMade, Hears, Distance;
    if more == [] {
      assert nodes + more == nodes;
    } else {
      assert (nodes + more)[..|nodes + more| - 1] == nodes + more[..|more| - 1];
      HearingConcat(groups, reporter, nodes, more[..|more| - 1], d);
      assert |more| == 1 ==> more == [more[0]] && more[..0] == [];
    }
  }

  ghost predicate Sorted(cs: seq<Candidate>) {
    forall i, j | 0 <= i < j < |cs| :: cs[i].distance <= cs[j].distance
  }

  lemma {:induction false} AtConcat(a: seq<Candidate>, b: seq<Candidate>, d: nat)
    ensures At(a + b, d) == At(a, d) + At(b, d)
  {
    if b == [] {
      assert a + b == a;
    } else {
      assert (a + b)[..|a + b| - 1] == a + b[..|b| - 1];
      AtConcat(a, b[..|b| - 1], d);
    }
  }

  lemma AtOne(c: Candidate, d: nat)
    ensures At([c], d) == if c.distance == d then [c.node] else []
  {
    assert [c][..0] == [];
  }

  lemma NothingAt()
    ensures forall d: nat :: At([], d) == []
  {
  }

  lemma {:induction false} NoneAt(cs: seq<Candidate>, d: nat)
    ensures At(cs, d) == [] <==> forall i | 0 <= i < |cs| :: cs[i].distance != d
  {
    if cs != [] {
      NoneAt(cs[..|cs| - 1], d);
    }
  }

  /** Stable: it comes after everything at its own distance. */
  lemma InsertAfter(cs: seq<Candidate>, k: nat, c: Candidate, d: nat)
    requires k <= |cs| && forall i | k <= i < |cs| :: cs[i].distance != c.distance
    ensures At(cs[..k] + [c] + cs[k..], d) == At(cs + [c], d)
  {
    var a, b := cs[..k], cs[k..];
    assert a + b == cs;
    AtConcat(a, b, d);
    AtConcat(a, [c], d);
    AtConcat(a + [c], b, d);
    if d == c.distance {
      NoneAt(b, d);
    }
  }

  /** Sorting by distance keeps the order of equals. */
  method SortByDistance(cs: seq<Candidate>) returns (r: seq<Candidate>)
    ensures Sorted(r)
    ensures forall d: nat :: At(r, d) == At(cs, d)
  {
    hide At;
    r := [];
    for n := 0 to |cs|
      invariant Sorted(r)
      invariant forall d: nat :: At(r, d) == At(cs[..n], d)
    {
      var c, k := cs[n], |r|;
      while k > 0 && r[k - 1].distance > c.distance
        invariant 0 <= k <= |r|
        invariant forall i | k <= i < |r| :: r[i].distance > c.distance
      {
        k := k - 1;
      }
      ghost var was := r;
      forall d: nat ensures At(r[..k] + [c] + r[k..], d) == At(cs[..n + 1], d) {
        InsertAfter(r, k, c, d);
        AtConcat(r, [c], d);
        AtConcat(cs[..n], [c], d);
        assert cs[..n + 1] == cs[..n] + [c];
      }
      r := r[..k] + [c] + r[k..];
    }
    assert cs[..|cs|] == cs;
  }

  /** The last candidate is the last at its distance. */
  lemma LastAt(cs: seq<Candidate>, d: nat)
    requires cs != []
    ensures var front, last := cs[..|cs| - 1], cs[|cs| - 1];
            if last.distance == d then At(cs, d) == At(front, d) + [last.node] else At(cs, d) == At(front, d)
  {
  }

  /** Lists that hold the same at each distance end at the same distance. */
  lemma LastDistance(a: seq<Candidate>, b: seq<Candidate>)
    requires Sorted(b) && a != [] && b != [] && At(a, a[|a| - 1].distance) == At(b, a[|a| - 1].distance)
    ensures a[|a| - 1].distance <= b[|b| - 1].distance
  {
    hide At;
    var d := a[|a| - 1].distance;
    NoneAt(a, d);
    NoneAt(b, d);
  }

  lemma SameWhenEmpty(a: seq<Candidate>, b: seq<Candidate>)
    requires a == [] && forall d: nat :: At(a, d) == At(b, d)
    ensures b == []
  {
    if b != [] {
      NoneAt(b, b[|b| - 1].distance);
    }
  }

  /** A sorted list is settled by what it holds at each distance. */
  lemma {:induction false} SortedUnique(a: seq<Candidate>, b: seq<Candidate>)
    requires Sorted(a) && Sorted(b) && forall d: nat :: At(a, d) == At(b, d)
    ensures a == b
    decreases |a|
  {
    if a == [] {
      SameWhenEmpty(a, b);
    } else if b == [] {
      SameWhenEmpty(b, a);
    } else {
      hide At;
      LastDistance(a, b);
      LastDistance(b, a);
      var x, y, a', b' := a[|a| - 1], b[|b| - 1], a[..|a| - 1], b[..|b| - 1];
      LastAt(a, x.distance);
      LastAt(b, x.distance);
      LastSame(At(a', x.distance), x.node, At(b', x.distance), y.node);
      forall d: nat ensures At(a', d) == At(b', d) {
        LastAt(a, d);
        LastAt(b, d);
        assert At(a, d) == At(b, d);
      }
      SortedUnique(a', b');
      assert a == a' + [x] && b == b' + [y];
    }
  }

  lemma LastSame<T>(s: seq<T>, x: T, t: seq<T>, y: T)
    requires s + [x] == t + [y]
    ensures s == t && x == y
  {
    assert |s| == |t|;
    assert (s + [x])[|s|] == x && (t + [y])[|t|] == y;
    assert (s + [x])[..|s|] == s && (t + [y])[..|t|] == t;
  }

  /** The nodes that hear the reporter, nearest group first and otherwise in the order of the flow. None
      when a node is stranded. */
  method FindCandidates(groups: Groups, reporter: Reporter, nodes: seq<ScopedNode>)
    returns (candidates: Option<seq<Candidate>>)
    requires WellMade(groups)
    ensures candidates.Some? <==> forall n <- nodes :: !Stranded(groups, reporter, n)
    ensures candidates.Some? ==> IsRanking(groups, reporter, nodes, candidates.value)
  {
    hide WellMade, Chain, Hops, IsDistance, Sorted, At;
    assert forall d: nat :: At([], d) == [] by { NothingAt(); }
    var found: seq<Candidate> := [];
    for i := 0 to |nodes|
      invariant forall k | 0 <= k < i :: !Stranded(groups, reporter, nodes[k])
      invariant forall d: nat :: At(found, d) == HearingAt(groups, reporter, nodes[..i], d)
    {
      var node := nodes[i];
      assert nodes[..i + 1][..i] == nodes[..i];
      var skip, distance := false, 0;
      if node.group.Some? && node.scope == SameGroup && reporter.group.None? {
        skip := true;
      } else if node.scope.Nodes? && reporter.id !in node.scope.ids {
        skip := true;
      } else if reporter.group.Some? {
        var climbed := Climb(groups, reporter.group.value, node.group);
        if climbed.None? {
          assert node in nodes;
          return None;
        }
        distance := climbed.value.0;
        DistanceUnique(Chain(groups, reporter.group.value), node.group, distance, climbed.value.1);
        skip := !climbed.value.1 && node.group.Some? && node.scope == SameGroup;
      }
      assert skip <==> !Hears(groups, reporter, node);
      assert !Stranded(groups, reporter, node);
      if !skip {
        assert distance == Distance(groups, reporter, node);
        forall d: nat
          ensures At(found + [Candidate(distance, node)], d) == HearingAt(groups, reporter, nodes[..i + 1], d)
        {
          AtConcat(found, [Candidate(distance, node)], d);
          AtOne(Candidate(distance, node), d);
        }
        found := found + [Candidate(distance, node)];
      } else {
        assert forall d: nat ::
          HearingAt(groups, reporter, nodes[..i + 1], d) == HearingAt(groups, reporter, nodes[..i], d);
      }
    }
    assert nodes[..|nodes|] == nodes;
    found := SortByDistance(found);
    candidates := Some(found);
  }

  // ---- Delivery -------------------------------------------------------------

  /** How many catch nodes come before the first one for uncaught errors. */
  ghost predicate FirstUncaught(candidates: seq<Candidate>, n: nat) {
    && n <= |candidates|
    && (forall i | 0 <= i < n :: !candidates[i].node.uncaught)
    && (n < |candidates| ==> candidates[n].node.uncaught)
  }

  /** Those that are to be told: all, unless ordinary catch nodes come first. */
  ghost function Told(candidates: seq<Candidate>): (told: seq<Candidate>)
    ensures told <= candidates
    ensures candidates != [] ==> told != []
    ensures candidates != [] && candidates[0].node.uncaught ==> told == candidates
    ensures candidates != [] && !candidates[0].node.uncaught ==> FirstUncaught(candidates, |told|)
  {
    if candidates == [] || candidates[0].node.uncaught then candidates
    else candidates[..Ordinary(candidates)]
  }

  ghost function Ordinary(candidates: seq<Candidate>): (n: nat)
    ensures FirstUncaught(candidates, n)
  {
    if candidates == [] || candidates[0].node.uncaught then 0
    else
      assert forall i | 0 < i < |candidates| :: candidates[i] == candidates[1..][i - 1];
      1 + Ordinary(candidates[1..])
  }

  /**
   * Tells the candidates of an error; none is the error of a node that does not take it.
   * The nodes that took it are those to be told, up to the first that does not.
   */
  method DeliverError(candidates: seq<Candidate>, takes: ScopedNode -> bool)
    returns (handled: Option<bool>, delivered: seq<Candidate>)
    ensures delivered <= Told(candidates) && (forall c <- delivered :: takes(c.node))
    ensures handled.Some? <==> forall c <- Told(candidates) :: takes(c.node)
    ensures handled.Some? ==> delivered == Told(candidates) && (handled.value <==> delivered != [])
    ensures handled.None? ==> |delivered| < |Told(candidates)| && !takes(Told(candidates)[|delivered|].node)
  {
    delivered := [];
    var any, byUncaught := false, false;
    ghost var told := Told(candidates);
    ghost var ordinary := Ordinary(candidates);
    for i := 0 to |candidates|
      invariant i <= |told| && delivered == told[..i]
      invariant any <==> i > 0
      invariant byUncaught <==> i > 0 && candidates[0].node.uncaught
      invariant forall k | 0 <= k < i :: takes(told[k].node)
    {
      var node := candidates[i].node;
      if node.uncaught && !byUncaught {
        if any {
          return Some(true), delivered;
        }
        byUncaught := true;
      }
      assert i < |told| && told[i] == candidates[i];
      if !takes(node) {
        return None, delivered;
      }
      delivered := delivered + [candidates[i]];
      any := true;
    }
    handled := Some(any);
  }

  datatype Outcome = Handled(any: bool) | Refused | Crashed

  /** The whole of it. Unless a node is stranded or a told node refuses, an error is handled exactly when
      some node hears it. */
  method HandleError(groups: Groups, reporter: Reporter, nodes: seq<ScopedNode>, takes: ScopedNode -> bool)
    returns (outcome: Outcome, delivered: seq<Candidate>, ghost ranking: seq<Candidate>)
    requires WellMade(groups)
    ensures outcome == Crashed <==> exists n <- nodes :: Stranded(groups, reporter, n)
    ensures outcome == Crashed ==> delivered == []
    ensures outcome != Crashed ==>
              && IsRanking(groups, reporter, nodes, ranking)
              && delivered <= Told(ranking) && (outcome.Handled? ==> delivered == Told(ranking))
              && (outcome.Handled? <==> forall c <- Told(ranking) :: takes(c.node))
              && (outcome == Refused ==> |delivered| < |Told(ranking)| && !takes(Told(ranking)[|delivered|].node))
    ensures outcome.Handled? ==> (outcome.any <==> exists n <- nodes :: Hears(groups, reporter, n))
  {
    hide WellMade, IsRanking;
    var candidates := FindCandidates(groups, reporter, nodes);
    if candidates.None? {
      return Crashed, [], [];
    }
    ranking := candidates.value;
    var handled;
    handled, delivered := DeliverError(candidates.value, takes);
    RankedIffHears(groups, reporter, nodes, ranking);
    outcome := if handled.None? then Refused else Handled(handled.value);
  }

  ghost predicate IsRanking(groups: Groups, reporter: Reporter, nodes: seq<ScopedNode>, cs: seq<Candidate>)
    requires WellMade(groups)
  {
    Sorted(cs) && forall d: nat :: At(cs, d) == HearingAt(groups, reporter, nodes, d)
  }

  lemma {:induction false} HearingAtNone(groups: Groups, reporter: Reporter, nodes: seq<ScopedNode>, d: nat)
    requires WellMade(groups)
    ensures HearingAt(groups, reporter, nodes, d) == [] <==>
            forall i | 0 <= i < |nodes|
                && Hears(groups, reporter, nodes[i]) :: Distance(groups, reporter, nodes[i]) != d
  {
    if nodes != [] {
      HearingAtNone(groups, reporter, nodes[..|nodes| - 1], d);
    }
  }

  lemma RankedIffHears(groups: Groups, reporter: Reporter, nodes: seq<ScopedNode>, cs: seq<Candidate>)
    requires WellMade(groups) && IsRanking(groups, reporter, nodes, cs)
    ensures cs != [] <==> exists n <- nodes :: Hears(groups, reporter, n)
  {
    if cs != [] {
      var d := cs[0].distance;
      NoneAt(cs, d);
      HearingAtNone(groups, reporter, nodes, d);
    } else {
      forall n <- nodes ensures !Hears(groups, reporter, n) {
        var d := Distance(groups, reporter, n);
        NoneAt(cs, d);
        HearingAtNone(groups, reporter, nodes, d);
      }
    }
  }

  /** Two flows whose nodes hear alike from every distance, in the same order. */
  ghost predicate HearAlike(groups: Groups, reporter: Reporter, nodes: seq<ScopedNode>, others: seq<ScopedNode>)
    requires WellMade(groups)
  {
    forall d: nat :: HearingAt(groups, reporter, nodes, d) == HearingAt(groups, reporter, others, d)
  }

  /** There is one ranking, and only the order within a distance matters to it. */
  lemma RankingUnique(groups: Groups, reporter: Reporter, nodes: seq<ScopedNode>, others: seq<ScopedNode>,
                      a: seq<Candidate>, b: seq<Candidate>)
    requires WellMade(groups) && IsRanking(groups, reporter, nodes, a) && IsRanking(groups, reporter, others, b)
    ensures a == b <==> HearAlike(groups, reporter, nodes, others)
  {
    hide WellMade;
    if HearAlike(groups, reporter, nodes, others) {
      forall d: nat ensures At(a, d) == At(b, d) {
        assert At(a, d) == HearingAt(groups, reporter, nodes, d);
      }
      SortedUnique(a, b);
    }
    if a == b {
      forall d: nat ensures HearingAt(groups, reporter, nodes, d) == HearingAt(groups, reporter, others, d) {
        assert At(a, d) == HearingAt(groups, reporter, nodes, d) && At(b, d) == HearingAt(groups, reporter, others, d);
      }
    }
  }
}
