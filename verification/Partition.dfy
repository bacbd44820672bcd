/** Round robin over `n` places: what `i % n` deals out. */
module RoundRobin {
  import opened Arithmetic
  import opened Sequences

  /** The next place follows the last one, or starts over. */
  lemma NextPlace(i: nat, n: nat)
    requires n > 0
    ensures (i + 1) % n == if i % n + 1 == n then 0 else i % n + 1
  {
    var q, r, q', r' := i / n, i % n, (i + 1) / n, (i + 1) % n;
    assert i == n * q + r && i + 1 == n * q' + r';
    if r + 1 == n {
      assert n * (q' - (q + 1)) == -r' by {
        assert n * (q + 1) == n * q + n;
        assert n * (q' - (q + 1)) == n * q' - n * (q + 1);
      }
      SmallMultiple(n, q' - (q + 1));
    } else {
      assert n * (q' - q) == r + 1 - r' by { assert n * (q' - q) == n * q' - n * q; }
      SmallMultiple(n, q' - q);
    }
  }

  /** How often place `j` comes up among the first `m`. */
  function Dealt(m: nat, n: nat, j: nat): nat
    requires n > 0
  {
    if m == 0 then 0 else Dealt(m - 1, n, j) + if (m - 1) % n == j then 1 else 0
  }

  /** The places before the next one are one ahead of the others. */
  lemma {:induction false} DealtEvenly(m: nat, n: nat) returns (q: nat)
    requires n > 0
    ensures forall j | 0 <= j < n :: Dealt(m, n, j) == q + if j < m % n then 1 else 0
  {
    if m == 0 {
      q := 0;
    } else {
      q := DealtEvenly(m - 1, n);
      NextPlace(m - 1, n);
      if (m - 1) % n + 1 == n {
        q := q + 1;
      }
    }
  }

  function Place(i: nat, n: nat): nat
    requires n > 0
  {
    i % n
  }

  /** The items that fall to place `j`. */
  ghost function ItemsAt<T>(items: seq<T>, n: nat, j: nat): set<T>
    requires n > 0
  {
    set i | 0 <= i < |items| && Place(i, n) == j :: items[i]
  }

  lemma ItemsAtSnoc<T>(items: seq<T>, item: T, n: nat, j: nat)
    requires n > 0
    ensures ItemsAt(items + [item], n, j) == ItemsAt(items, n, j) + if Place(|items|, n) == j then {item} else {}
  {
    hide Place;
    var longer := items + [item];
    forall i | 0 <= i < |longer| && Place(i, n) == j
      ensures longer[i] in ItemsAt(items, n, j) + if Place(|items|, n) == j then {item} else {}
    {
      if i < |items| { assert longer[i] == items[i]; }
    }
    forall x | x in ItemsAt(items, n, j) ensures x in ItemsAt(longer, n, j) {
      var i :| 0 <= i < |items| && Place(i, n) == j && items[i] == x;
      assert longer[i] == x;
    }
    assert longer[|items|] == item;
  }

  lemma {:induction false} ItemsAtCount<T>(items: seq<T>, n: nat, j: nat)
    requires n > 0 && Distinct(items)
    ensures |ItemsAt(items, n, j)| == Dealt(|items|, n, j)
  {
    if items != [] {
      var m := |items| - 1;
      var front := items[..m];
      assert Dealt(m + 1, n, j) == Dealt(m, n, j) + if Place(m, n) == j then 1 else 0;
      hide Place, Dealt;
      ItemsAtCount(front, n, j);
      ItemsAtSnoc(front, items[m], n, j);
      assert items == front + [items[m]];
      assert items[m] !in ItemsAt(front, n, j);
    }
  }

  /** Distinct items dealt round robin: any two places get counts that differ by at most one. */
  lemma EvenDeal<T>(items: seq<T>, n: nat, j: nat, k: nat)
    requires 0 <= j < n && 0 <= k < n && Distinct(items)
    ensures |ItemsAt(items, n, j)| <= |ItemsAt(items, n, k)| + 1
  {
    var q := DealtEvenly(|items|, n);
    ItemsAtCount(items, n, j);
    ItemsAtCount(items, n, k);
  }
}

/** Which cluster node runs which flow. */
module Partition {
  import opened Sequences
  import opened Membership
  import opened Replication
  import opened RoundRobin

  /** Flow id to its owner, stamped with the generation. */
  type Assignments = map<string, Stamped<string>>

  ghost function AliveIn(members: Membership.Table): set<string> {
    set id | id in members && members[id].IsAlive()
  }

  lemma AliveInIff(members: Membership.Table, id: string)
    ensures id in AliveIn(members) <==> id in members && members[id].state in {Alive, Self}
  {
  }

  ghost function Owned(t: Assignments, node: string): set<string> {
    set f | f in t && t[f].value == node
  }

  lemma OwnedIff(t: Assignments, node: string, f: string)
    ensures f in Owned(t, node) <==> f in t && t[f].value == node
  {
  }

  /** No two of the nodes differ by more than one flow. */
  ghost predicate Balanced(t: Assignments, nodes: set<string>) {
    forall a, b | a in nodes && b in nodes :: |Owned(t, a)| <= |Owned(t, b)| + 1
  }

  /** A flow keeps its entry, or its generation goes up by one with a new owner. */
  ghost predicate Reassigned(before: Assignments, after: Assignments, f: string) {
    && f in after
    && (f in before ==>
        after[f] == before[f] || (after[f].value != before[f].value && after[f].stamp == before[f].stamp + 1))
    && (f !in before ==> after[f].stamp == 1)
  }

  /** What one leader operation may do: flows are kept, reassigned, added or dropped. */
  ghost predicate LeaderStep(before: Assignments, after: Assignments) {
    forall f <- after :: Reassigned(before, after, f)
  }

  /** Every entry of the table once. */
  ghost predicate IsListOf(list: seq<Update<string, string>>, t: Assignments) {
    && (forall i, j | 0 <= i < j < |list| :: list[i].key != list[j].key)
    && (forall u :: u in list <==> u.key in t && t[u.key] == u.entry)
  }

  /** The ids of the alive members, in any order. */
  method AliveNodes(members: Membership.Table, except: set<string>) returns (ids: seq<string>)
    ensures Distinct(ids) && forall id :: id in ids <==> id in AliveIn(members) && id !in except
  {
    ids := [];
    var todo := members.Keys;
    while todo != {}
      invariant todo <= members.Keys && Distinct(ids)
      invariant forall id :: id in ids <==> id in AliveIn(members) && id !in except && id !in todo
    {
      var id :| id in todo;
      todo := todo - {id};
      if members[id].IsAlive() && id !in except {
        ids := ids + [id];
      }
    }
  }

  /** The fresh table: flow `i` goes to node `i % n`; of a repeated id the last place counts. */
  method DealFlows(flowIds: seq<string>, nodes: seq<string>) returns (owners: map<string, string>)
    requires |nodes| > 0
    ensures forall f :: f in owners <==> f in flowIds
    ensures forall f <- owners :: owners[f] in nodes
    ensures Distinct(flowIds) ==> forall i | 0 <= i < |flowIds| :: owners[flowIds[i]] == nodes[i % |nodes|]
  {
    owners := map[];
    for i := 0 to |flowIds|
      invariant forall f :: f in owners <==> f in flowIds[..i]
      invariant forall f <- owners :: owners[f] in nodes
      invariant Distinct(flowIds) ==> forall k | 0 <= k < i :: owners[flowIds[k]] == nodes[k % |nodes|]
    {
      owners := owners[flowIds[i] := nodes[i % |nodes|]];
    }
  }

  /** A deal of distinct flows over distinct nodes is balanced. */
  lemma DealBalanced(flowIds: seq<string>, nodes: seq<string>, t: Assignments)
    requires |nodes| > 0 && Distinct(nodes) && Distinct(flowIds)
    requires forall f :: f in t <==> f in flowIds
    requires forall i | 0 <= i < |flowIds| :: t[flowIds[i]].value == nodes[i % |nodes|]
    ensures Balanced(t, set x | x in nodes)
  {
    var n := |nodes|;
    forall a, b | a in nodes && b in nodes ensures |Owned(t, a)| <= |Owned(t, b)| + 1 {
      var j :| 0 <= j < n && nodes[j] == a;
      var k :| 0 <= k < n && nodes[k] == b;
      assert Owned(t, a) == ItemsAt(flowIds, n, j);
      assert Owned(t, b) == ItemsAt(flowIds, n, k);
      EvenDeal(flowIds, n, j, k);
    }
  }

  class PartitionManager {
    var assignments: Assignments
    const localId: string

    constructor (localId: string)
      ensures this.localId == localId && assignments == map[]
    {
      this.localId := localId;
      assignments := map[];
    }

    /** Fresh assignments for a list of flows. Nothing changes when no member is alive. */
    method ComputeAssignments(members: Membership.Table, flowIds: seq<string>)
      returns (sent: seq<Update<string, string>>)
      modifies this
      ensures if AliveIn(members) == {} then sent == [] else IsListOf(sent, assignments)
      ensures LeaderStep(old(assignments), assignments)
      ensures AliveIn(members) == {} ==> assignments == old(assignments)
      ensures AliveIn(members) != {} ==>
                && assignments.Keys == (set f | f in flowIds)
                && (forall f <- assignments :: assignments[f].value in AliveIn(members))
                && (Distinct(flowIds) ==> Balanced(assignments, AliveIn(members)))
                && (Distinct(flowIds) ==> forall a, b | a in AliveIn(members) && b in AliveIn(members) ::
                      |Owned(assignments, a)| <= |Owned(assignments, b)| + 1)
    {
      var nodes := AliveNodes(members, {});
      if nodes == [] {
        assert AliveIn(members) == {} by { assert forall id <- AliveIn(members) :: id in nodes; }
        return [];
      }
      assert nodes[0] in AliveIn(members);
      var owners := DealFlows(flowIds, nodes);
      MergeOwners(owners);
      ghost var merged := assignments;
      assignments := map f | f in assignments && f in owners :: assignments[f];
      if Distinct(flowIds) {
        DealBalanced(flowIds, nodes, assignments);
        assert (set x | x in nodes) == AliveIn(members);
      }
      sent := ListAssignments();
    }

    /** The table as a list, in any order. */
    method ListAssignments() returns (sent: seq<Update<string, string>>)
      ensures IsListOf(sent, assignments)
    {
      sent := [];
      var todo := assignments.Keys;
      while todo != {}
        invariant todo <= assignments.Keys && IsListOf(sent, map f | f in assignments && f !in todo :: assignments[f])
      {
        var f :| f in todo;
        todo := todo - {f};
        sent := sent + [Update(f, assignments[f])];
      }
      assert (map f | f in assignments && f !in todo :: assignments[f]) == assignments;
    }

    /** Puts the fresh owners into the table, with a new generation for each owner that changes. */
    method MergeOwners(owners: map<string, string>)
      modifies this
      ensures assignments.Keys == old(assignments.Keys) + owners.Keys
      ensures forall f <- owners :: assignments[f].value == owners[f] && Reassigned(old(assignments), assignments, f)
    {
      var todo := owners.Keys;
      while todo != {}
        invariant todo <= owners.Keys && assignments.Keys == old(assignments.Keys) + (owners.Keys - todo)
        invariant forall f <- old(assignments) :: f !in owners.Keys - todo ==> assignments[f] == old(assignments)[f]
        invariant forall f <- owners.Keys - todo :: assignments[f].value == owners[f]
                    && Reassigned(old(assignments), assignments, f)
      {
        var f :| f in todo;
        todo := todo - {f};
        if !(f in assignments && assignments[f].value == owners[f]) {
          var generation := (if f in assignments then assignments[f].stamp else 0) + 1;
          assignments := assignments[f := Stamped(owners[f], generation)];
        }
      }
    }

    /** Moves the flows of a dead node to the others, round robin. Nothing changes when no other
        member is alive. */
    method RebalanceAfterFailure(members: Membership.Table, deadId: string) returns (sent: seq<Update<string, string>>)
      modifies this
      ensures if AliveIn(members) - {deadId} == {} then sent == [] else IsListOf(sent, assignments)
      ensures LeaderStep(old(assignments), assignments) && assignments.Keys == old(assignments.Keys)
      ensures forall f <- assignments :: old(assignments)[f].value != deadId ==> assignments[f] == old(assignments)[f]
      ensures AliveIn(members) - {deadId} == {} ==> assignments == old(assignments)
      ensures AliveIn(members) - {deadId} != {} ==>
                && Owned(assignments, deadId) == {}
                && (forall f <- assignments :: old(assignments)[f].value == deadId ==>
                      && assignments[f].value in AliveIn(members) - {deadId}
                      && assignments[f].stamp == old(assignments)[f].stamp + 1)
                && (forall f <- Owned(old(assignments), deadId) :: assignments[f].value in AliveIn(members))
                && (forall a, b | a in AliveIn(members) - {deadId} && b in AliveIn(members) - {deadId} ::
                      |Received(old(assignments), assignments, deadId, a)|
                      <= |Received(old(assignments), assignments, deadId, b)| + 1)
    {
      var nodes := AliveNodes(members, {deadId});
      if nodes == [] {
        assert AliveIn(members) - {deadId} == {} by { assert forall id <- AliveIn(members) - {deadId} :: id in nodes; }
        return [];
      }
      assert nodes[0] in AliveIn(members) - {deadId};
      ghost var moved := MoveFlows(nodes, deadId);
      forall f | f in Owned(old(assignments), deadId)
        ensures assignments[f].value in nodes && assignments[f].stamp == old(assignments)[f].stamp + 1
      {
        var i :| 0 <= i < |moved| && moved[i] == f;
        assert nodes[PlaceIn(i, nodes)] in nodes;
      }
      forall a, b | a in AliveIn(members) - {deadId} && b in AliveIn(members) - {deadId}
        ensures |Received(old(assignments), assignments, deadId, a)|
                <= |Received(old(assignments), assignments, deadId, b)| + 1
      {
        assert a in nodes && b in nodes;
        ReceivedEvenly(old(assignments), assignments, deadId, nodes, moved, a, b);
      }
      sent := ListAssignments();
    }

    /** The loop over the table, in any order. */
    method MoveFlows(nodes: seq<string>, deadId: string) returns (ghost moved: seq<string>)
      requires |nodes| > 0 && deadId !in nodes
      modifies this
      ensures assignments.Keys == old(assignments.Keys)
      ensures forall f <- assignments :: old(assignments)[f].value != deadId ==> assignments[f] == old(assignments)[f]
      ensures Distinct(moved) && forall f :: f in moved <==> f in Owned(old(assignments), deadId)
      ensures forall i | 0 <= i < |moved| :: moved[i] in assignments && moved[i] in old(assignments)
                && assignments[moved[i]] == Stamped(nodes[PlaceIn(i, nodes)], old(assignments)[moved[i]].stamp + 1)
    {
      hide PlaceIn;
      var idx := 0;
      moved := [];
      var todo := assignments.Keys;
      while todo != {}
        invariant todo <= assignments.Keys == old(assignments.Keys) && idx == |moved|
        invariant forall f <- assignments :: f in todo || old(assignments)[f].value != deadId ==>
                    assignments[f] == old(assignments)[f]
        invariant Distinct(moved) && forall f :: f in moved <==> f in Owned(old(assignments), deadId) && f !in todo
        invariant forall i | 0 <= i < |moved| :: moved[i] in assignments && moved[i] in old(assignments)
                    && assignments[moved[i]] == Stamped(nodes[PlaceIn(i, nodes)], old(assignments)[moved[i]].stamp + 1)
      {
        var f :| f in todo;
        todo := todo - {f};
        var entry := assignments[f];
        if entry.value == deadId {
          assert f !in moved;
          assignments := assignments[f := Stamped(nodes[PlaceIn(idx, nodes)], entry.stamp + 1)];
          moved := moved + [f];
          idx := idx + 1;
        }
      }
    }

    /** Takes over assignments sent by the leader. */
    method ApplyAssignments(incoming: seq<Update<string, string>>)
      modifies this
      ensures assignments == MergeAll(old(assignments), incoming)
      ensures HoldsHighest(old(assignments), incoming, assignments)
    {
      for i := 0 to |incoming|
        invariant assignments == MergeAll(old(assignments), incoming[..i])
      {
        assert incoming[..i + 1][..i] == incoming[..i];
        var a := incoming[i];
        if a.key in assignments && assignments[a.key].stamp >= a.entry.stamp {
          continue;
        }
        assignments := assignments[a.key := a.entry];
      }
      assert incoming[..|incoming|] == incoming;
      MergeAllHoldsHighest(old(assignments), incoming);
    }
  }

  predicate OwnsFlow(t: Assignments, localId: string, f: string) {
    f in t && t[f].value == localId
  }

  function PlaceIn(i: nat, nodes: seq<string>): (p: nat)
    requires |nodes| > 0
    ensures p == Place(i, |nodes|) && p < |nodes|
  {
    i % |nodes|
  }

  /** The flows that went from one node to another. */
  ghost function Received(before: Assignments, after: Assignments, from: string, to: string): set<string> {
    set f | f in Owned(before, from) && f in after && after[f].value == to
  }

  lemma ReceivedEvenly(before: Assignments, after: Assignments, from: string, nodes: seq<string>, moved: seq<string>,
                       a: string, b: string)
    requires |nodes| > 0 && Distinct(nodes) && Distinct(moved) && a in nodes && b in nodes && from !in nodes
    requires forall f :: f in moved <==> f in Owned(before, from)
    requires forall i | 0 <= i < |moved| :: moved[i] in after && after[moved[i]].value == nodes[PlaceIn(i, nodes)]
    ensures |Received(before, after, from, a)| <= |Received(before, after, from, b)| + 1
  {
    var n := |nodes|;
    var j :| 0 <= j < n && nodes[j] == a;
    var k :| 0 <= k < n && nodes[k] == b;
    ReceivedAt(before, after, from, nodes, moved, j);
    ReceivedAt(before, after, from, nodes, moved, k);
    EvenDeal(moved, n, j, k);
  }

  lemma ReceivedAt(before: Assignments, after: Assignments, from: string, nodes: seq<string>, moved: seq<string>,
                   j: nat)
    requires j < |nodes| && Distinct(nodes)
    requires forall f :: f in moved <==> f in Owned(before, from)
    requires forall i | 0 <= i < |moved| :: moved[i] in after && after[moved[i]].value == nodes[PlaceIn(i, nodes)]
    ensures Received(before, after, from, nodes[j]) == ItemsAt(moved, |nodes|, j)
  {
    hide Place, PlaceIn;
    var n := |nodes|;
    forall f | f in Received(before, after, from, nodes[j]) ensures f in ItemsAt(moved, n, j) {
      var i :| 0 <= i < |moved| && moved[i] == f;
      assert nodes[PlaceIn(i, nodes)] == nodes[j];
    }
    forall f | f in ItemsAt(moved, n, j) ensures f in Received(before, after, from, nodes[j]) {
      var i :| 0 <= i < |moved| && Place(i, n) == j && moved[i] == f;
      assert PlaceIn(i, nodes) == j;
    }
  }

  // ---- One leader's tables and its replicas --------------------------------

  /** The tables a leader held, from the empty one on. */
  ghost predicate History(h: seq<Assignments>) {
    |h| > 0 && h[0] == map[] && forall i | 0 <= i < |h| - 1 :: LeaderStep(h[i], h[i + 1])
  }

  /** Once assigned, the flow was in every later table. */
  ghost predicate NeverDropped(h: seq<Assignments>, f: string) {
    forall i, j | 0 <= i <= j < |h| && f in h[i] :: f in h[j]
  }

  /** Generations of a flow that is never dropped go up exactly with its entry. */
  lemma {:induction false} GenerationsGrow(h: seq<Assignments>, f: string, i: nat, j: nat)
    requires History(h) && NeverDropped(h, f) && i <= j < |h| && f in h[i]
    ensures f in h[j] && h[i][f].stamp <= h[j][f].stamp
    ensures h[i][f].stamp == h[j][f].stamp ==> h[i][f] == h[j][f]
  {
    if i < j {
      GenerationsGrow(h, f, i, j - 1);
      assert LeaderStep(h[j - 1], h[j - 1 + 1]);
    }
  }

  /** The updates are entries of the tables numbered in `seen`, and all of each table's entries for
      the flow are among them. */
  ghost predicate Snapshots(h: seq<Assignments>, seen: set<nat>, f: string, us: seq<Update<string, string>>) {
    && (forall i <- seen :: i < |h|)
    && (forall e :: Update(f, e) in us <==> exists i :: i in seen && f in h[i] && h[i][f] == e)
  }

  /** However the snapshots of a never dropped flow are lost, repeated or reordered, a replica holds
      the entry of the latest one it received. */
  lemma ReplicaHoldsLatest(h: seq<Assignments>, seen: set<nat>, f: string, us: seq<Update<string, string>>, last: nat)
    requires History(h) && NeverDropped(h, f) && Snapshots(h, seen, f, us)
    requires last in seen && f in h[last] && forall i <- seen :: i <= last
    ensures f in MergeAll(map[], us) && MergeAll(map[], us)[f] == h[last][f]
  {
    var r := MergeAll(map[], us);
    MergeAllHoldsHighest(map[], us);
    assert Update(f, h[last][f]) in us;
    assert Offered(map[], us, f, h[last][f]);
    assert Offered(map[], us, f, r[f]);
    var i :| i in seen && f in h[i] && h[i][f] == r[f];
    GenerationsGrow(h, f, i, last);
  }

  /** Of any two nodes whose replicas have the leader's latest table, at most one runs the flow. */
  lemma AtMostOneOwner(h: seq<Assignments>, f: string, seen: set<nat>, us: seq<Update<string, string>>, a: string,
                       seen': set<nat>, us': seq<Update<string, string>>, b: string)
    requires History(h) && NeverDropped(h, f) && f in h[|h| - 1]
    requires Snapshots(h, seen, f, us) && Snapshots(h, seen', f, us') && |h| - 1 in seen && |h| - 1 in seen'
    requires OwnsFlow(MergeAll(map[], us), a, f) && OwnsFlow(MergeAll(map[], us'), b, f)
    ensures a == b
  {
    ReplicaHoldsLatest(h, seen, f, us, |h| - 1);
    ReplicaHoldsLatest(h, seen', f, us', |h| - 1);
  }

  /** The latest entry of a flow wins in every order of arrival exactly when no other entry issued
      for it has as high a generation. */
  lemma LatestWinsIff(h: seq<Assignments>, f: string)
    requires |h| > 0 && f in h[|h| - 1]
    ensures (forall seen: set<nat>, us | Snapshots(h, seen, f, us) && |h| - 1 in seen ::
               f in MergeAll(map[], us) && MergeAll(map[], us)[f] == h[|h| - 1][f])
            <==> forall i | 0 <= i < |h| && f in h[i] :: h[i][f].stamp < h[|h| - 1][f].stamp || h[i][f] == h[|h| - 1][f]
  {
    var last := |h| - 1;
    if forall i | 0 <= i < |h| && f in h[i] :: h[i][f].stamp < h[last][f].stamp || h[i][f] == h[last][f] {
      forall seen: set<nat>, us | Snapshots(h, seen, f, us) && last in seen
        ensures f in MergeAll(map[], us) && MergeAll(map[], us)[f] == h[last][f]
      {
        MergeAllHoldsHighest(map[], us);
        assert Offered(map[], us, f, h[last][f]);
        assert Offered(map[], us, f, MergeAll(map[], us)[f]);
      }
    } else {
      var i: nat :| i < |h| && f in h[i] && h[i][f].stamp >= h[last][f].stamp && h[i][f] != h[last][f];
      StaleWins(h, f, i);
    }
  }

  lemma StaleWins(h: seq<Assignments>, f: string, i: nat)
    requires |h| > 0 && f in h[|h| - 1] && i < |h| && f in h[i]
    requires h[i][f].stamp >= h[|h| - 1][f].stamp && h[i][f] != h[|h| - 1][f]
    ensures exists seen: set<nat>, us :: Snapshots(h, seen, f, us) && |h| - 1 in seen
              && f in MergeAll(map[], us) && MergeAll(map[], us)[f] != h[|h| - 1][f]
  {
    var last := |h| - 1;
    var seen: set<nat> := {i, last};
    var first, second := Update(f, h[i][f]), Update(f, h[last][f]);
    var us := [first, second];
    assert us[..1] == [first] && [first][..0] == [];
    assert MergeAll(map[], [first]) == map[f := h[i][f]];
    assert MergeAll(map[], us) == map[f := h[i][f]];
    assert Snapshots(h, seen, f, us);
  }

  /** A flow that was dropped and comes back starts at generation one again. Here `f` goes to `x`,
      to `y`, away, and to `x` again; a node that received what the leader sent second and last
      still takes `y` for the owner, so both run it. */
  method DroppedFlowSplits() returns (leader: Assignments, replica: Assignments)
    ensures OwnsFlow(leader, "x", "f") && OwnsFlow(replica, "y", "f")
  {
    var onlyX: Membership.Table := map["x" := NewMember("", 0)];
    var onlyY: Membership.Table := map["y" := NewMember("", 0)];
    assert AliveIn(onlyX) == {"x"} && AliveIn(onlyY) == {"y"};
    var one := new PartitionManager("x");
    var two := new PartitionManager("y");
    var first := one.ComputeAssignments(onlyX, ["f"]);
    assert one.assignments["f"] == Stamped("x", 1);
    var second := one.ComputeAssignments(onlyY, ["f"]);
    assert one.assignments["f"] == Stamped("y", 2);
    assert Update("f", Stamped("y", 2)) in second;
    two.ApplyAssignments(second);
    assert Offered(map[], second, "f", Stamped("y", 2));
    var third := one.ComputeAssignments(onlyY, []);
    assert "f" !in one.assignments;
    ghost var before := two.assignments;
    var fourth := one.ComputeAssignments(onlyX, ["f"]);
    assert one.assignments["f"] == Stamped("x", 1);
    two.ApplyAssignments(fourth);
    assert Offered(before, fourth, "f", before["f"]);
    leader, replica := one.assignments, two.assignments;
  }
}
