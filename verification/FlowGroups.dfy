/** The groups of a flow: how they are registered, and the climb from a group to its ancestors. */
module FlowGroups {
  import opened Options

  datatype GroupConfig = GroupConfig(id: string, flow: string, parent: Option<string>)

  /** A parent is held weakly, so it names one registered group: that of the configuration with this number. */
  datatype ParentRef = ParentRef(id: string, number: nat)

  /** A group as registered, with the number of its configuration; no parent when that is the flow. */
  datatype Group = Group(number: nat, parent: Option<ParentRef>)

  /** The groups that are kept. One registered later under the same id takes the place of the earlier. */
  type Groups = map<string, Group>

  // ---- Registration ------------------------------------------------------------

  ghost predicate Listed(flowId: string, configs: seq<GroupConfig>, g: string) {
    exists k :: 0 <= k < |configs| && configs[k].flow == flowId && configs[k].id == g
  }

  /** Every group that names a parent comes after a group of the flow with that id. */
  ghost predicate ParentsFirst(flowId: string, configs: seq<GroupConfig>) {
    forall i | 0 <= i < |configs| && configs[i].flow == flowId && configs[i].parent.Some? ::
      Listed(flowId, configs[..i], configs[i].parent.value)
  }

  ghost predicate DistinctGroups(flowId: string, configs: seq<GroupConfig>) {
    forall i, j | 0 <= i < j < |configs| && configs[i].flow == flowId && configs[j].flow == flowId ::
      configs[i].id != configs[j].id
  }

  /** The last of the first `n` configurations that is of the flow and has this id. */
  ghost predicate IsLatest(flowId: string, configs: seq<GroupConfig>, n: nat, g: string, k: nat) {
    && k < n <= |configs| && configs[k].flow == flowId && configs[k].id == g
    && forall j | k < j < n && configs[j].flow == flowId :: configs[j].id != g
  }

  /** The group is the latest of its id, and its parent was the latest of that id before it. */
  ghost predicate MadeFrom(flowId: string, configs: seq<GroupConfig>, n: nat, id: string, group: Group) {
    && IsLatest(flowId, configs, n, id, group.number)
    && match configs[group.number].parent
       case None => group.parent == None
       case Some(p) =>
         group.parent.Some? && group.parent.value.id == p
             && IsLatest(flowId, configs, group.number, p, group.parent.value.number)
  }

  ghost predicate AllMade(flowId: string, configs: seq<GroupConfig>, n: nat, groups: Groups)
    requires n <= |configs|
  {
    && (forall g :: g in groups <==> Listed(flowId, configs[..n], g))
    && (forall g <- groups :: MadeFrom(flowId, configs, n, g, groups[g]))
  }

  lemma ListedOneMore(flowId: string, configs: seq<GroupConfig>, i: nat)
    requires i < |configs|
    ensures forall g :: Listed(flowId, configs[..i + 1], g) <==>
                        Listed(flowId, configs[..i], g) || (configs[i].flow == flowId && configs[i].id == g)
  {
    var before, after := configs[..i], configs[..i + 1];
    assert after == before + [configs[i]];
    forall g
      ensures Listed(flowId, after, g) <==>
                Listed(flowId, before, g) || (configs[i].flow == flowId && configs[i].id == g)
    {
      if configs[i].flow == flowId && configs[i].id == g {
        assert after[i] == configs[i];
      }
      if Listed(flowId, before, g) {
        var k :| 0 <= k < |before| && before[k].flow == flowId && before[k].id == g;
        assert after[k] == before[k];
      }
    }
  }

  lemma ParentsFirstOneMore(flowId: string, configs: seq<GroupConfig>, i: nat)
    requires i < |configs|
    ensures ParentsFirst(flowId, configs[..i + 1]) <==>
              ParentsFirst(flowId, configs[..i]) &&
              (configs[i].flow == flowId && configs[i].parent.Some? ==>
                  Listed(flowId, configs[..i], configs[i].parent.value))
    ensures ParentsFirst(flowId, configs) ==> ParentsFirst(flowId, configs[..i + 1])
  {
    var before, after := configs[..i], configs[..i + 1];
    assert forall k | 0 <= k <= i :: after[..k] == configs[..k];
    assert forall k | 0 <= k < i :: before[..k] == after[..k] && before[k] == after[k];
    assert after[..i] == before;
  }

  /** Another configuration is passed over, or its group takes the place of any earlier one. */
  lemma MadeOneMore(flowId: string, configs: seq<GroupConfig>, i: nat, groups: Groups, gc: GroupConfig,
                    parent: Option<ParentRef>)
    requires i < |configs| && gc == configs[i] && AllMade(flowId, configs, i, groups)
    requires gc.flow == flowId && gc.parent.Some? ==> gc.parent.value in groups
    requires parent == (if gc.parent.None? then None
                        else if gc.parent.value in groups then
                            Some(ParentRef(gc.parent.value, groups[gc.parent.value].number))
                        else None)
    ensures AllMade(flowId, configs, i + 1, if gc.flow == flowId then groups[gc.id := Group(i, parent)] else groups)
  {
    hide Listed;
    ListedOneMore(flowId, configs, i);
    var groups' := if gc.flow == flowId then groups[gc.id := Group(i, parent)] else groups;
    forall g <- groups' ensures MadeFrom(flowId, configs, i + 1, g, groups'[g]) {
      if g in groups && !(gc.flow == flowId && g == gc.id) {
        assert MadeFrom(flowId, configs, i, g, groups[g]);
      }
    }
    forall g ensures g in groups' <==> Listed(flowId, configs[..i + 1], g) {
      assert g in groups' <==> g in groups || (gc.flow == flowId && g == gc.id);
    }
  }

  lemma MadeNone(flowId: string, configs: seq<GroupConfig>)
    ensures AllMade(flowId, configs, 0, map[]) && ParentsFirst(flowId, configs[..0])
  {
  }

  /** Registers the groups of a flow. A parent that is not there yet is an error. */
  method PopulateGroups(flowId: string, configs: seq<GroupConfig>) returns (ok: bool, groups: Groups)
    ensures ok <==> ParentsFirst(flowId, configs)
    ensures ok ==> AllMade(flowId, configs, |configs|, groups) && WellMade(groups)
    ensures ok && DistinctGroups(flowId, configs) ==> forall g :: !Dangles(groups, g)
  {
    hide AllMade, ParentsFirst, WellMade;
    groups := map[];
    MadeNone(flowId, configs);
    for i := 0 to |configs|
      invariant AllMade(flowId, configs, i, groups) && ParentsFirst(flowId, configs[..i])
    {
      var gc := configs[i];
      ParentsFirstOneMore(flowId, configs, i);
      AllListed(flowId, configs, i, groups);
      if gc.flow == flowId && gc.parent.Some? && gc.parent.value !in groups {
        return false, groups;
      }
      ghost var was := groups;
      if gc.flow == flowId {
        var parent := if gc.parent.Some? then Some(ParentRef(gc.parent.value, groups[gc.parent.value].number))
            else None;
        groups := groups[gc.id := Group(i, parent)];
        MadeOneMore(flowId, configs, i, was, gc, parent);
      } else {
        MadeOneMore(flowId, configs, i, was, gc, ParentOf(was, gc));
      }
    }
    assert configs[..|configs|] == configs;
    AllWellMade(flowId, configs, groups);
    if DistinctGroups(flowId, configs) {
      NoneDangles(flowId, configs, groups);
    }
    ok := true;
  }

  ghost function ParentOf(groups: Groups, gc: GroupConfig): Option<ParentRef> {
    if gc.parent.Some? && gc.parent.value in groups then
        Some(ParentRef(gc.parent.value, groups[gc.parent.value].number)) else None
  }

  lemma AllListed(flowId: string, configs: seq<GroupConfig>, n: nat, groups: Groups)
    requires n <= |configs| && AllMade(flowId, configs, n, groups)
    ensures forall g :: g in groups <==> Listed(flowId, configs[..n], g)
  {
  }

  /** Every parent was registered before its child, whatever the ids. */
  ghost predicate WellMade(groups: Groups) {
    forall g <- groups :: groups[g].parent.Some? ==> groups[g].parent.value.number < groups[g].number
  }

  lemma AllWellMade(flowId: string, configs: seq<GroupConfig>, groups: Groups)
    requires AllMade(flowId, configs, |configs|, groups)
    ensures WellMade(groups)
  {
    forall g <- groups ensures groups[g].parent.Some? ==> groups[g].parent.value.number < groups[g].number {
      assert MadeFrom(flowId, configs, |configs|, g, groups[g]);
    }
  }

  // ---- The way up ----------------------------------------------------------------

  /** The group a parent reference names is still kept. */
  predicate Alive(groups: Groups, parent: ParentRef) {
    parent.id in groups && groups[parent.id].number == parent.number
  }

  /** The group itself, its parent, and so on up to the flow, or to a parent that is gone. */
  ghost function Chain(groups: Groups, g: string): (c: seq<string>)
    requires WellMade(groups)
    ensures |c| >= 1 && c[0] == g
    decreases if g in groups then groups[g].number else 0
  {
    if g in groups && groups[g].parent.Some? && Alive(groups, groups[g].parent.value) then
      [g] + Chain(groups, groups[g].parent.value.id)
    else [g]
  }

  /** A link up: `b` is the parent of `a`, and still kept. */
  ghost predicate Link(groups: Groups, a: string, b: string) {
    && a in groups && b in groups && groups[a].parent.Some?
    && groups[a].parent.value.id == b && groups[b].number == groups[a].parent.value.number
  }

  /** Links from a group up to another. */
  ghost predicate LinkPath(groups: Groups, from: string, path: seq<string>) {
    path != [] && path[0] == from && forall i | 0 <= i < |path| - 1 :: Link(groups, path[i], path[i + 1])
  }

  /** The whole way up: links as far as they go. */
  ghost predicate WayUp(groups: Groups, from: string, path: seq<string>) {
    LinkPath(groups, from, path) && IsTop(groups, path[|path| - 1])
  }

  ghost predicate IsTop(groups: Groups, g: string) {
    forall b :: !Link(groups, g, b)
  }

  lemma ChainTail(groups: Groups, g: string)
    requires WellMade(groups)
    ensures forall b :: Link(groups, g, b) ==> Chain(groups, g) == [g] + Chain(groups, b)
    ensures IsTop(groups, g) ==> Chain(groups, g) == [g]
  {
    if g in groups && groups[g].parent.Some? && Alive(groups, groups[g].parent.value) {
      assert Link(groups, g, groups[g].parent.value.id);
    }
  }

  /** The chain is the way up, */
  lemma {:induction false} ChainIsWayUp(groups: Groups, g: string)
    requires WellMade(groups)
    ensures WayUp(groups, g, Chain(groups, g))
    decreases if g in groups then groups[g].number else 0
  {
    ChainTail(groups, g);
    if b :| Link(groups, g, b) {
      ChainIsWayUp(groups, b);
      var chain, rest := Chain(groups, g), Chain(groups, b);
      forall i | 0 <= i < |chain| - 1 ensures Link(groups, chain[i], chain[i + 1]) {
        if i > 0 { assert Link(groups, rest[i - 1], rest[i]); }
      }
    }
  }

  /** every path of links is a beginning of it, */
  lemma {:induction false} LinkPathInChain(groups: Groups, g: string, path: seq<string>)
    requires WellMade(groups) && LinkPath(groups, g, path)
    ensures path <= Chain(groups, g)
    decreases |path|
  {
    if |path| > 1 {
      assert Link(groups, path[0], path[1]);
      ChainTail(groups, g);
      forall i | 0 <= i < |path[1..]| - 1 ensures Link(groups, path[1..][i], path[1..][i + 1]) {
        assert Link(groups, path[i + 1], path[i + 1 + 1]);
      }
      LinkPathInChain(groups, path[1], path[1..]);
      assert path == [g] + path[1..];
    }
  }

  /** and there is only one. */
  lemma WayUpUnique(groups: Groups, g: string, path: seq<string>)
    requires WellMade(groups) && WayUp(groups, g, path)
    ensures path == Chain(groups, g)
  {
    LinkPathInChain(groups, g, path);
    if path != Chain(groups, g) {
      GoesOn(groups, g, path);
    }
  }

  lemma GoesOn(groups: Groups, g: string, path: seq<string>)
    requires WellMade(groups) && path != [] && path < Chain(groups, g)
    ensures !IsTop(groups, path[|path| - 1])
  {
    var chain := Chain(groups, g);
    ChainIsWayUp(groups, g);
    assert Link(groups, chain[|path| - 1], chain[|path| - 1 + 1]);
  }

  /** A group is on the chain exactly when links lead to it, and its place is their number. */
  lemma OnChainIff(groups: Groups, g: string, target: string)
    requires WellMade(groups)
    ensures target in Chain(groups, g) <==>
              exists path :: LinkPath(groups, g, path) && path[|path| - 1] == target
  {
    var chain := Chain(groups, g);
    ChainIsWayUp(groups, g);
    if target in chain {
      var k :| 0 <= k < |chain| && chain[k] == target;
      var path := chain[..k + 1];
      forall i | 0 <= i < |path| - 1 ensures Link(groups, path[i], path[i + 1]) {
        assert Link(groups, chain[i], chain[i + 1]);
      }
      assert LinkPath(groups, g, path);
    }
    if path :| LinkPath(groups, g, path) && path[|path| - 1] == target {
      LinkPathInChain(groups, g, path);
    }
  }

  /** The way up ends at a group whose parent is gone. */
  ghost predicate Dangles(groups: Groups, g: string)
    requires WellMade(groups)
  {
    var chain := Chain(groups, g);
    var top := chain[|chain| - 1];
    top in groups && groups[top].parent.Some? && !Alive(groups, groups[top].parent.value)
  }

  /** With distinct ids no group is ever replaced. */
  lemma NoneDangles(flowId: string, configs: seq<GroupConfig>, groups: Groups)
    requires AllMade(flowId, configs, |configs|, groups) && DistinctGroups(flowId, configs) && WellMade(groups)
    ensures forall g :: !Dangles(groups, g)
  {
    hide WellMade, AllMade, DistinctGroups, Alive;
    forall g ensures !Dangles(groups, g) {
      var chain := Chain(groups, g);
      var top := chain[|chain| - 1];
      if top in groups && groups[top].parent.Some? {
        ParentAlive(flowId, configs, groups, top);
      }
    }
  }

  lemma ParentAlive(flowId: string, configs: seq<GroupConfig>, groups: Groups, g: string)
    requires AllMade(flowId, configs, |configs|, groups) && DistinctGroups(flowId, configs)
    requires g in groups && groups[g].parent.Some?
    ensures Alive(groups, groups[g].parent.value)
  {
    assert MadeFrom(flowId, configs, |configs|, g, groups[g]);
    ParentAliveIff(flowId, configs, groups, g);
  }

  /** A group's parent is kept exactly when its id is not registered again, by the group itself or later. */
  lemma ParentAliveIff(flowId: string, configs: seq<GroupConfig>, groups: Groups, g: string)
    requires AllMade(flowId, configs, |configs|, groups) && g in groups && groups[g].parent.Some?
    ensures Alive(groups, groups[g].parent.value) <==>
              forall j | groups[g].number <= j < |configs| && configs[j].flow == flowId ::
                configs[j].id != groups[g].parent.value.id
  {
    var parent := groups[g].parent.value;
    assert MadeFrom(flowId, configs, |configs|, g, groups[g]);
    assert configs[..|configs|] == configs;
    assert Listed(flowId, configs, parent.id);
    assert MadeFrom(flowId, configs, |configs|, parent.id, groups[parent.id]);
    assert configs[groups[g].number].flow == flowId;
  }

  /** How many steps up the chain the target is; the whole chain when it is not on it. */
  ghost predicate IsDistance(chain: seq<string>, target: Option<string>, distance: nat, reached: bool) {
    && distance <= |chain|
    && (forall i | 0 <= i < distance :: target != Some(chain[i]))
    && (reached <==> distance < |chain|)
    && (distance < |chain| ==> target == Some(chain[distance]))
  }

  /** The loop that climbs from a group towards the target. None is the end of the program, at a parent
      that is gone. */
  method Climb(groups: Groups, from: string, target: Option<string>) returns (r: Option<(nat, bool)>)
    requires WellMade(groups)
    ensures r.Some? ==> IsDistance(Chain(groups, from), target, r.value.0, r.value.1)
    ensures r.None? <==> Dangles(groups, from) && !(target.Some? && target.value in Chain(groups, from))
    ensures r.Some? && r.value.1 ==>
              target.Some? && exists path :: ClimbsTo(groups, from, target.value, path) && r.value.0 == |path| - 1
    ensures r.Some? && !r.value.1 ==>
              && (forall path | LinkPath(groups, from, path) :: Some(path[|path| - 1]) != target)
              && exists path :: WayUp(groups, from, path) && r.value.0 == |path|
  {
    ghost var chain := Chain(groups, from);
    var distance := 0;
    var at := Some(from);
    while at.Some? && at != target
      invariant distance <= |chain| && (at.None? <==> distance == |chain|)
      invariant at.Some? ==> chain[distance..] == Chain(groups, at.value)
      invariant at.None? ==> !Dangles(groups, from)
      invariant forall i | 0 <= i < distance :: target != Some(chain[i])
      decreases |chain| - distance
    {
      ghost var rest := chain[distance..];
      assert rest[0] == chain[distance] == at.value && rest[|rest| - 1] == chain[|chain| - 1];
      distance := distance + 1;
      assert rest[1..] == chain[distance..];
      if at.value in groups && groups[at.value].parent.Some? {
        var parent := groups[at.value].parent.value;
        if !Alive(groups, parent) {
          return None;
        }
        at := Some(parent.id);
      } else {
        at := None;
      }
    }
    assert at.Some? ==> chain[distance..][0] == chain[distance];
    r := Some((distance, at.Some?));
    ClimbMeaning(groups, from, target, distance, at.Some?);
  }

  /** Links lead to the target for the first time. */
  ghost predicate ClimbsTo(groups: Groups, from: string, target: string, path: seq<string>) {
    && LinkPath(groups, from, path) && path[|path| - 1] == target
    && forall i | 0 <= i < |path| - 1 :: path[i] != target
  }

  lemma ClimbMeaning(groups: Groups, from: string, target: Option<string>, distance: nat, reached: bool)
    requires WellMade(groups) && IsDistance(Chain(groups, from), target, distance, reached)
    ensures reached ==>
              target.Some? && exists path :: ClimbsTo(groups, from, target.value, path) && distance == |path| - 1
    ensures !reached ==>
              && (forall path | LinkPath(groups, from, path) :: Some(path[|path| - 1]) != target)
              && exists path :: WayUp(groups, from, path) && distance == |path|
  {
    var chain := Chain(groups, from);
    ChainIsWayUp(groups, from);
    if reached {
      var path := chain[..distance + 1];
      forall i | 0 <= i < |path| - 1 ensures Link(groups, path[i], path[i + 1]) {
        assert Link(groups, chain[i], chain[i + 1]);
      }
      assert ClimbsTo(groups, from, target.value, path);
    } else {
      forall path | LinkPath(groups, from, path) ensures Some(path[|path| - 1]) != target {
        LinkPathInChain(groups, from, path);
      }
    }
  }

  /** The first place of the target in the chain, or the length of the chain. */
  ghost function Hops(chain: seq<string>, target: Option<string>): (n: nat)
    ensures IsDistance(chain, target, n, target.Some? && target.value in chain)
  {
    if chain == [] || target == Some(chain[0]) then 0
    else
      assert forall i | 0 < i < |chain| :: chain[i] == chain[1..][i - 1];
      1 + Hops(chain[1..], target)
  }

  lemma DistanceUnique(chain: seq<string>, target: Option<string>, n: nat, reached: bool)
    requires IsDistance(chain, target, n, reached)
    ensures n == Hops(chain, target) && (reached <==> target.Some? && target.value in chain)
  {
    var h := Hops(chain, target);
    assert h < |chain| ==> target == Some(chain[h]);
    assert n < |chain| ==> target == Some(chain[n]);
  }
}
