/** Cluster membership on one node: the member table, what each message does to it, and the
    failure detector. Times are milliseconds. */
module Membership {

  datatype MemberState = Joining | Alive | Suspect | Dead | Self

  datatype Member = Member(addr: string, state: MemberState, incarnation: nat, lastHeartbeat: int,
                           metadata: map<string, string>) {

    predicate IsAlive() {
      state == Alive || state == Self
    }

    function MarkSuspect(): Member {
      if state == Alive then this.(state := Suspect) else this
    }

    function MarkDead(): Member {
      this.(state := Dead)
    }

    function Refute(now: int): Member {
      this.(incarnation := incarnation + 1, state := Alive, lastHeartbeat := now)
    }
  }

  function NewMember(addr: string, now: int): Member {
    Member(addr, Alive, 0, now, map[])
  }

  type Table = map<string, Member>

  // ---- Messages -----------------------------------------------------------

  datatype HeartbeatPayload = HeartbeatPayload(nodeId: string, addr: string, incarnation: nat, state: MemberState,
                                               metadata: map<string, string>)

  datatype MemberDigest = MemberDigest(nodeId: string, addr: string, state: MemberState, incarnation: nat)

  datatype Message =
    | Heartbeat(payload: HeartbeatPayload)
    | FullSync(digests: seq<MemberDigest>)
    | Leave(nodeId: string)
    | Ack

  function DigestOf(id: string, m: Member): MemberDigest {
    MemberDigest(id, m.addr, m.state, m.incarnation)
  }

  /** The heartbeat is taken as proof that a suspected member lives. */
  predicate Refutes(t: Table, p: HeartbeatPayload) {
    p.nodeId in t && p.incarnation >= t[p.nodeId].incarnation && t[p.nodeId].state == Suspect && p.state == Alive
  }

  function AfterHeartbeat(t: Table, p: HeartbeatPayload, now: int): Table {
    if p.nodeId in t then
      var m := t[p.nodeId];
      if p.incarnation >= m.incarnation then
        t[p.nodeId := Member(p.addr, p.state, p.incarnation + if Refutes(t, p) then 1 else 0, now, p.metadata)]
      else t
    else t[p.nodeId := Member(p.addr, Alive, p.incarnation, now, p.metadata)]
  }

  function AfterDigest(t: Table, d: MemberDigest, now: int): Table {
    if d.nodeId in t then
      if d.incarnation > t[d.nodeId].incarnation then
        t[d.nodeId := t[d.nodeId].(incarnation := d.incarnation, state := d.state, addr := d.addr,
            lastHeartbeat := now)]
      else t
    else if d.state != Dead then t[d.nodeId := Member(d.addr, d.state, d.incarnation, now, map[])]
    else t
  }

  function AfterSync(t: Table, digests: seq<MemberDigest>, now: int): Table {
    if digests == [] then t
    else AfterDigest(AfterSync(t, digests[..|digests| - 1], now), digests[|digests| - 1], now)
  }

  /** `tcp` tells the accept loop, which spares the local entry, from the multicast listener. */
  function AfterMessage(t: Table, localId: string, msg: Message, tcp: bool, now: int): Table {
    match msg
    case Heartbeat(p) => AfterHeartbeat(t, p, now)
    case FullSync(digests) => AfterSync(t, digests, now)
    case Leave(id) => if tcp && id == localId then t else t - {id}
    case Ack => t
  }

  // ---- Failure detector ---------------------------------------------------

  function Elapsed(m: Member, now: int): nat {
    if now <= m.lastHeartbeat then 0 else now - m.lastHeartbeat
  }

  function Aged(m: Member, now: int, timeout: nat): Member {
    if Elapsed(m, now) > timeout && m.state != Dead then m.MarkDead()
    else if Elapsed(m, now) > timeout / 2 && m.state == Alive then m.MarkSuspect()
    else m
  }

  function AfterTick(t: Table, localId: string, now: int, timeout: nat): Table {
    map id | id in t :: if id == localId then t[id] else Aged(t[id], now, timeout)
  }

  // ---- What the messages come to --------------------------------------------------

  /** A node counts as alive while it is Alive or the local one, not while it is suspected, dead or joining. */
  lemma IsAliveIff(m: Member)
    ensures m.IsAlive() <==> m.state != Suspect && m.state != Dead && m.state != Joining
  {
  }

  /** What a heartbeat makes of its sender's entry: a new one, the old one if it is stale, or one with all
      the sender says, and an incarnation more if the sender was suspected. */
  ghost predicate HeardFrom(t: Table, p: HeartbeatPayload, now: int, t': Table) {
    && p.nodeId in t' && t' - {p.nodeId} == t - {p.nodeId}
    && var m' := t'[p.nodeId];
    if p.nodeId !in t then m' == Member(p.addr, Alive, p.incarnation, now, p.metadata)
    else if p.incarnation < t[p.nodeId].incarnation then m' == t[p.nodeId]
    else
      && m'.state == p.state && m'.addr == p.addr && m'.lastHeartbeat == now && m'.metadata == p.metadata
      && (t[p.nodeId].state == Suspect && p.state == Alive ==> m'.incarnation == p.incarnation + 1)
      && (t[p.nodeId].state != Suspect || p.state != Alive ==> m'.incarnation == p.incarnation)
  }

  /** The first digest for a node with this incarnation. */
  ghost predicate FirstWith(ds: seq<MemberDigest>, x: string, incarnation: nat, i: nat) {
    && i < |ds| && ds[i].nodeId == x && ds[i].incarnation == incarnation
    && forall j | 0 <= j < i :: ds[j].nodeId == x ==> ds[j].incarnation != incarnation
  }

  /** A known entry ends with the highest incarnation there is for the node. If that is a new one, state
      and address come with it, from the first digest that has it; if not, nothing changes. */
  ghost predicate Raised(m: Member, m': Member, ds: seq<MemberDigest>, x: string, now: int) {
    && m.incarnation <= m'.incarnation
    && (forall d <- ds :: d.nodeId == x ==> d.incarnation <= m'.incarnation)
    && (m'.incarnation == m.incarnation ==> m' == m)
    && (m'.incarnation > m.incarnation ==>
          exists i: nat :: FirstWith(ds, x, m'.incarnation, i)
                      && m' == Member(ds[i].addr, ds[i].state, m'.incarnation, now, m.metadata))
  }

  ghost predicate FirstLive(ds: seq<MemberDigest>, x: string, i: nat) {
    && i < |ds| && ds[i].nodeId == x && ds[i].state != Dead
    && forall j | 0 <= j < i :: ds[j].nodeId == x ==> ds[j].state == Dead
  }

  /** An unknown node comes in with the first digest that does not call it dead, and the later ones count. */
  ghost predicate Introduced(m': Member, ds: seq<MemberDigest>, x: string, now: int) {
    exists i: nat :: FirstLive(ds, x, i)
                && Raised(Member(ds[i].addr, ds[i].state, ds[i].incarnation, now, map[]), m', ds[i + 1..], x, now)
  }

  /** The whole of a full sync. */
  ghost predicate Synced(t: Table, ds: seq<MemberDigest>, now: int, t': Table) {
    && (forall x <- t :: x in t' && Raised(t[x], t'[x], ds, x, now))
    && (forall x | x !in t :: x in t' <==> exists d <- ds :: d.nodeId == x && d.state != Dead)
    && (forall x <- t' :: x !in t ==> Introduced(t'[x], ds, x, now))
  }

  ghost function Taken(m: Member, d: MemberDigest, x: string, now: int): Member {
    if d.nodeId == x && d.incarnation > m.incarnation then
      Member(d.addr, d.state, d.incarnation, now, m.metadata)
    else m
  }

  lemma RaisedMore(m: Member, m': Member, ds: seq<MemberDigest>, d: MemberDigest, x: string, now: int)
    requires Raised(m, m', ds, x, now)
    ensures Raised(m, Taken(m', d, x, now), ds + [d], x, now)
  {
    var more, r := ds + [d], Taken(m', d, x, now);
    assert forall e <- more :: e == d || e in ds;
    if d.nodeId == x && d.incarnation > m'.incarnation {
      assert more[|ds|] == d;
      assert FirstWith(more, x, d.incarnation, |ds|) by {
        assert forall j | 0 <= j < |ds| :: more[j] == ds[j] && ds[j] in ds;
      }
    } else if m'.incarnation > m.incarnation {
      var i: nat :| FirstWith(ds, x, m'.incarnation, i)
          && m' == Member(ds[i].addr, ds[i].state, m'.incarnation, now, m.metadata);
      assert forall j | 0 <= j <= i :: more[j] == ds[j];
      assert FirstWith(more, x, m'.incarnation, i);
    }
  }

  lemma IntroducedMore(m': Member, ds: seq<MemberDigest>, d: MemberDigest, x: string, now: int)
    requires Introduced(m', ds, x, now)
    ensures Introduced(Taken(m', d, x, now), ds + [d], x, now)
  {
    hide Raised, Taken;
    var i: nat :| FirstLive(ds, x, i)
             && Raised(Member(ds[i].addr, ds[i].state, ds[i].incarnation, now, map[]), m', ds[i + 1..], x, now);
    var more := ds + [d];
    RaisedMore(Member(ds[i].addr, ds[i].state, ds[i].incarnation, now, map[]), m', ds[i + 1..], d, x, now);
    assert more[i + 1..] == ds[i + 1..] + [d];
    assert forall j | 0 <= j <= i :: more[j] == ds[j];
    assert FirstLive(more, x, i);
  }

  lemma IntroducedNow(ds: seq<MemberDigest>, d: MemberDigest, now: int)
    requires d.state != Dead && forall e <- ds :: e.nodeId == d.nodeId ==> e.state == Dead
    ensures Introduced(Member(d.addr, d.state, d.incarnation, now, map[]), ds + [d], d.nodeId, now)
  {
    var more := ds + [d];
    assert forall j | 0 <= j < |ds| :: more[j] == ds[j] && ds[j] in ds;
    assert FirstLive(more, d.nodeId, |ds|) && more[|ds| + 1..] == [];
  }

  lemma SyncedNone(t: Table, now: int)
    ensures Synced(t, [], now, t)
  {
  }

  lemma {:induction false} SyncLaw(t: Table, ds: seq<MemberDigest>, now: int)
    ensures Synced(t, ds, now, AfterSync(t, ds, now))
  {
    hide Synced, AfterDigest;
    if ds == [] {
      SyncedNone(t, now);
    } else {
      var front, d := ds[..|ds| - 1], ds[|ds| - 1];
      SyncLaw(t, front, now);
      SyncMore(t, front, AfterSync(t, front, now), d, now);
      assert ds == front + [d];
    }
  }

  /** One digest takes part in its own node's entry only. */
  lemma DigestTaken(t: Table, d: MemberDigest, now: int)
    ensures forall x <- t :: x in AfterDigest(t, d, now) && AfterDigest(t, d, now)[x] == Taken(t[x], d, x, now)
    ensures forall x | x !in t :: x in AfterDigest(t, d, now) <==> x == d.nodeId && d.state != Dead
    ensures d.nodeId !in t && d.state != Dead ==>
              AfterDigest(t, d, now)[d.nodeId] == Member(d.addr, d.state, d.incarnation, now, map[])
  {
  }

  lemma SyncMore(t: Table, ds: seq<MemberDigest>, t': Table, d: MemberDigest, now: int)
    requires Synced(t, ds, now, t')
    ensures Synced(t, ds + [d], now, AfterDigest(t', d, now))
  {
    hide Raised, Introduced, Taken, AfterDigest;
    var more, r := ds + [d], AfterDigest(t', d, now);
    assert forall e :: e in more <==> e in ds || e == d;
    DigestTaken(t', d, now);
    forall x <- t ensures x in r && Raised(t[x], r[x], more, x, now) {
      RaisedMore(t[x], t'[x], ds, d, x, now);
    }
    forall x <- r | x !in t ensures Introduced(r[x], more, x, now) {
      if x in t' {
        IntroducedMore(t'[x], ds, d, x, now);
      } else {
        IntroducedNow(ds, d, now);
      }
    }
    forall x | x !in t ensures x in r <==> exists e <- more :: e.nodeId == x && e.state != Dead {
      assert x in r <==> x in t' || (x == d.nodeId && d.state != Dead);
      if x == d.nodeId && d.state != Dead {
        assert d in more;
      }
    }
  }

  // ---- The engine ---------------------------------------------------------

  class GossipEngine {
    const localId: string
    var members: Table

    constructor (localId: string)
      ensures this.localId == localId && members == map[]
    {
      this.localId := localId;
      members := map[];
    }

    /** Registers the node itself. */
    method Start(bindAddr: string, now: int)
      modifies this
      ensures members == old(members)[localId := Member(bindAddr, Self, 0, now, map[])]
    {
      members := members[localId := NewMember(bindAddr, now).(state := Self)];
    }

    method ProcessHeartbeat(p: HeartbeatPayload, now: int)
      modifies this
      ensures members == AfterHeartbeat(old(members), p, now)
      ensures HeardFrom(old(members), p, now, members)
    {
      if p.nodeId in members {
        var member := members[p.nodeId];
        if p.incarnation >= member.incarnation {
          if p.incarnation > member.incarnation {
            member := member.(incarnation := p.incarnation);
          }
          if member.state == Suspect && p.state == Alive {
            member := member.Refute(now);
          }
          member := member.(state := p.state);
          member := member.(addr := p.addr);
          member := member.(lastHeartbeat := now);
          member := member.(metadata := p.metadata);
          members := members[p.nodeId := member];
        }
      } else {
        var m := NewMember(p.addr, now);
        m := m.(state := Alive);
        m := m.(incarnation := p.incarnation);
        m := m.(metadata := p.metadata);
        members := members[p.nodeId := m];
      }
    }

    method ProcessFullSync(digests: seq<MemberDigest>, now: int)
      modifies this
      ensures members == AfterSync(old(members), digests, now)
      ensures Synced(old(members), digests, now, members)
    {
      for i := 0 to |digests|
        invariant members == AfterSync(old(members), digests[..i], now)
      {
        var digest := digests[i];
        assert digests[..i + 1][..i] == digests[..i];
        if digest.nodeId in members {
          var existing := members[digest.nodeId];
          if digest.incarnation > existing.incarnation {
            existing := existing.(incarnation := digest.incarnation);
            existing := existing.(state := digest.state);
            existing := existing.(addr := digest.addr);
            existing := existing.(lastHeartbeat := now);
            members := members[digest.nodeId := existing];
          }
        } else {
          if digest.state != Dead {
            var m := NewMember(digest.addr, now);
            m := m.(state := digest.state);
            m := m.(incarnation := digest.incarnation);
            members := members[digest.nodeId := m];
          }
        }
      }
      assert digests[..|digests|] == digests;
      SyncLaw(old(members), digests, now);
    }

    /** `handle_connection` when `tcp`, `handle_message` otherwise. */
    method HandleMessage(msg: Message, tcp: bool, now: int)
      modifies this
      ensures members == AfterMessage(old(members), localId, msg, tcp, now)
      ensures match msg
              case Heartbeat(p) => HeardFrom(old(members), p, now, members)
              case FullSync(digests) => Synced(old(members), digests, now, members)
              case Leave(id) => members == if tcp && id == localId then old(members) else old(members) - {id}
              case Ack => members == old(members)
    {
      match msg
      case Heartbeat(p) => ProcessHeartbeat(p, now);
      case FullSync(digests) => ProcessFullSync(digests, now);
      case Leave(id) =>
        if !(tcp && id == localId) {
          members := members - {id};
        }
      case Ack =>
    }

    /** One tick of the failure detector: first the changes are collected, then they are made. */
    method DetectFailures(now: int, timeout: nat)
      modifies this
      ensures members == AfterTick(old(members), localId, now, timeout)
      ensures members.Keys == old(members).Keys && (localId in members ==> members[localId] == old(members)[localId])
      ensures forall id <- members | id != localId ::
                var m := old(members)[id];
                members[id] == if now - m.lastHeartbeat > timeout then m.(state := Dead)
                               else if now - m.lastHeartbeat > timeout / 2 && m.state == Alive then m.(state := Suspect)
                               else m
    {
      var actions := CollectActions(now, timeout);
      ApplyActions(actions, now, timeout);
    }

    method CollectActions(now: int, timeout: nat) returns (actions: seq<(string, MemberState)>)
      ensures forall i, j | 0 <= i < j < |actions| :: actions[i].0 != actions[j].0
      ensures forall a <- actions :: a.0 in members && a.0 != localId && a.1 == Aged(members[a.0], now, timeout).state
      ensures forall a <- actions :: a.1 == Dead || (a.1 == Suspect && members[a.0].state == Alive)
      ensures forall id <- members :: id == localId || Listed(actions, id)
                || Aged(members[id], now, timeout) == members[id]
    {
      actions := [];
      var todo := members.Keys;
      while todo != {}
        invariant todo <= members.Keys
        invariant forall i, j | 0 <= i < j < |actions| :: actions[i].0 != actions[j].0
        invariant forall a <- actions ::
                    a.0 in members && a.0 !in todo && a.0 != localId && a.1 == Aged(members[a.0], now, timeout).state
        invariant forall a <- actions :: a.1 == Dead || (a.1 == Suspect && members[a.0].state == Alive)
        invariant forall id <- members ::
                    id in todo || id == localId || Listed(actions, id) || Aged(members[id], now, timeout) == members[id]
      {
        var id :| id in todo;
        todo := todo - {id};
        var entry := members[id];
        if id != localId {
          if Elapsed(entry, now) > timeout && entry.state != Dead {
            ListedSnoc(actions, (id, Dead));
            actions := actions + [(id, Dead)];
          } else if Elapsed(entry, now) > timeout / 2 && entry.state == Alive {
            ListedSnoc(actions, (id, Suspect));
            actions := actions + [(id, Suspect)];
          }
        }
      }
    }

    method ApplyActions(actions: seq<(string, MemberState)>, ghost now: int, ghost timeout: nat)
      requires forall i, j | 0 <= i < j < |actions| :: actions[i].0 != actions[j].0
      requires forall a <- actions :: a.0 in members && a.0 != localId && a.1 == Aged(members[a.0], now, timeout).state
      requires forall a <- actions :: a.1 == Dead || (a.1 == Suspect && members[a.0].state == Alive)
      requires forall id <- members :: id == localId || Listed(actions, id)
                 || Aged(members[id], now, timeout) == members[id]
      modifies this
      ensures members == AfterTick(old(members), localId, now, timeout)
    {
      hide Aged, Listed, AgedSome;
      ghost var was := members;
      NoneAged(was, now, timeout);
      for i := 0 to |actions|
        invariant AgedSome(was, members, actions[..i], now, timeout) && members.Keys == was.Keys
      {
        var (id, newState) := actions[i];
        assert actions[i] in actions;
        NotListedYet(actions, i);
        assert actions[..i + 1] == actions[..i] + [actions[i]];
        OneAged(was, members, actions[..i], actions[i], now, timeout);
        if newState == Dead {
          members := members[id := members[id].MarkDead()];
        } else if newState == Suspect {
          members := members[id := members[id].MarkSuspect()];
        }
      }
      assert actions[..|actions|] == actions;
      AllAged(was, members, actions, localId, now, timeout);
    }
  }

  /** The listed entries have aged and the others have not. */
  ghost predicate AgedSome(was: Table, t: Table, actions: seq<(string, MemberState)>, now: int, timeout: nat) {
    t.Keys == was.Keys
        && forall id <- was :: t[id] == if Listed(actions, id) then Aged(was[id], now, timeout) else was[id]
  }

  lemma NoneAged(was: Table, now: int, timeout: nat)
    ensures AgedSome(was, was, [], now, timeout)
  {
  }

  lemma OneAged(was: Table, t: Table, actions: seq<(string, MemberState)>, a: (string, MemberState), now: int,
                timeout: nat)
    requires AgedSome(was, t, actions, now, timeout) && !Listed(actions, a.0) && a.0 in was
    requires a.1 == Aged(was[a.0], now, timeout).state && (a.1 == Dead || (a.1 == Suspect && was[a.0].state == Alive))
    ensures AgedSome(was, t[a.0 := if a.1 == Dead then t[a.0].MarkDead() else t[a.0].MarkSuspect()], actions + [a],
              now, timeout)
  {
    hide Aged, Listed;
    AgedAs(was[a.0], now, timeout);
    ListedSnoc(actions, a);
  }

  lemma AllAged(was: Table, t: Table, actions: seq<(string, MemberState)>, localId: string, now: int, timeout: nat)
    requires AgedSome(was, t, actions, now, timeout) && forall a <- actions :: a.0 != localId
    requires forall id <- was :: id == localId || Listed(actions, id) || Aged(was[id], now, timeout) == was[id]
    ensures t == AfterTick(was, localId, now, timeout)
  {
    assert !Listed(actions, localId);
    hide Aged, Listed;
  }

  ghost predicate Listed(actions: seq<(string, MemberState)>, id: string) {
    exists i :: 0 <= i < |actions| && actions[i].0 == id
  }

  lemma NotListedYet(actions: seq<(string, MemberState)>, i: nat)
    requires i < |actions| && forall i, j | 0 <= i < j < |actions| :: actions[i].0 != actions[j].0
    ensures !Listed(actions[..i], actions[i].0)
  {
  }

  /** Ageing marks an entry and does nothing else. */
  lemma AgedAs(m: Member, now: int, timeout: nat)
    ensures Aged(m, now, timeout).state == Dead ==> Aged(m, now, timeout) == m.MarkDead()
    ensures Aged(m, now, timeout).state == Suspect && m.state == Alive ==> Aged(m, now, timeout) == m.MarkSuspect()
  {
  }

  lemma ListedSnoc(actions: seq<(string, MemberState)>, a: (string, MemberState))
    ensures forall id :: Listed(actions + [a], id) <==> Listed(actions, id) || id == a.0
  {
    var longer := actions + [a];
    assert longer[|actions|].0 == a.0;
    forall id | Listed(actions, id) ensures Listed(longer, id) {
      var i :| 0 <= i < |actions| && actions[i].0 == id;
      assert longer[i].0 == id;
    }
  }
}
