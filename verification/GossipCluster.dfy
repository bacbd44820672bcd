/** A cluster of any size over a network that may lose, repeat and reorder messages: a message
    once sent can be delivered at any later step, any number of times, to any node. */
module GossipCluster {
  import opened Options
  import opened Membership

  /** `refutations` counts, for each node, how often a member table refuted a suspicion of it. */
  datatype Cluster = Cluster(tables: map<string, Table>, sent: set<Message>, started: set<string>,
                             refutations: map<string, nat>)

  datatype Action =
    | Start(node: string, addr: string, now: int)
    | Announce(node: string, addr: string)
    | SendHeartbeat(node: string, addr: string, now: int)
    | SendSync(node: string, digests: seq<MemberDigest>)
    | SendLeave(node: string)
    | Receive(node: string, msg: Message, tcp: bool, now: int)
    | Detect(node: string, now: int, timeout: nat)

  function Initial(): Cluster {
    Cluster(map[], {}, {}, map[])
  }

  function Count(c: Cluster, node: string): nat {
    if node in c.refutations then c.refutations[node] else 0
  }

  /** A sync may carry any of the sender's entries, in any order. */
  predicate Enabled(c: Cluster, a: Action) {
    match a
    case Start(_, _, _) => true
    case Announce(n, _) => n in c.started
    case SendSync(n, digests) =>
      n in c.tables && forall d <- digests :: d.nodeId in c.tables[n] && d == DigestOf(d.nodeId, c.tables[n][d.nodeId])
    case Receive(n, msg, _, _) => n in c.tables && msg in c.sent
    case _ => a.node in c.tables
  }

  function OwnIncarnation(c: Cluster, node: string): nat
    requires node in c.tables
  {
    if node in c.tables[node] then c.tables[node][node].incarnation else 0
  }

  function Touched(t: Table, node: string, now: int): Table {
    if node in t then t[node := t[node].(lastHeartbeat := now)] else t
  }

  function Act(c: Cluster, a: Action): Cluster
    requires Enabled(c, a)
  {
    match a
    case Start(n, addr, now) =>
      c.(tables := c.tables[n := map[n := NewMember(addr, now).(state := Self)]], started := c.started + {n})
    case Announce(n, addr) =>
      c.(sent := c.sent + {Heartbeat(HeartbeatPayload(n, addr, 0, Alive, map[]))})
    case SendHeartbeat(n, addr, now) =>
      c.(tables := c.tables[n := Touched(c.tables[n], n, now)],
         sent := c.sent + {Heartbeat(HeartbeatPayload(n, addr, OwnIncarnation(c, n), Alive, map[]))})
    case SendSync(n, digests) => c.(sent := c.sent + {FullSync(digests)})
    case SendLeave(n) => c.(sent := c.sent + {Leave(n)})
    case Receive(n, msg, tcp, now) =>
      var c' := c.(tables := c.tables[n := AfterMessage(c.tables[n], n, msg, tcp, now)]);
      if msg.Heartbeat? && Refutes(c.tables[n], msg.payload) then
        c'.(refutations := c.refutations[msg.payload.nodeId := Count(c, msg.payload.nodeId) + 1])
      else c'
    case Detect(n, now, timeout) => c.(tables := c.tables[n := AfterTick(c.tables[n], n, now, timeout)])
  }

  /** An action that is not possible leaves the cluster as it is. */
  function Step(c: Cluster, a: Action): Cluster {
    if Enabled(c, a) then Act(c, a) else c
  }

  function Run(c: Cluster, actions: seq<Action>): Cluster {
    if actions == [] then c else Step(Run(c, actions[..|actions| - 1]), actions[|actions| - 1])
  }

  // ---- Incarnations -------------------------------------------------------

  /** The claim about a node is one that refutations account for. */
  predicate Accounted(c: Cluster, node: string, incarnation: nat) {
    node in c.started && incarnation <= Count(c, node)
  }

  ghost predicate TableAccounted(c: Cluster, t: Table) {
    forall x <- t :: Accounted(c, x, t[x].incarnation)
  }

  ghost predicate MessageAccounted(c: Cluster, msg: Message) {
    match msg
    case Heartbeat(p) => Accounted(c, p.nodeId, p.incarnation)
    case FullSync(digests) => forall d <- digests :: Accounted(c, d.nodeId, d.incarnation)
    case _ => true
  }

  ghost predicate AllAccounted(c: Cluster) {
    && c.tables.Keys <= c.started
    && (forall n <- c.tables :: TableAccounted(c, c.tables[n]))
    && (forall msg <- c.sent :: MessageAccounted(c, msg))
  }

  /** The cluster only learns of more starts and refutations. */
  ghost predicate Grows(c: Cluster, c': Cluster) {
    c.started <= c'.started && forall x :: Count(c, x) <= Count(c', x)
  }

  lemma StepGrows(c: Cluster, a: Action)
    ensures Grows(c, Step(c, a))
  {
  }

  lemma {:induction false} SyncAccounted(c: Cluster, t: Table, digests: seq<MemberDigest>, now: int)
    requires TableAccounted(c, t) && forall d <- digests :: Accounted(c, d.nodeId, d.incarnation)
    ensures TableAccounted(c, AfterSync(t, digests, now))
  {
    if digests != [] {
      SyncAccounted(c, t, digests[..|digests| - 1], now);
    }
  }

  lemma StillAccounted(c: Cluster, c': Cluster)
    requires Grows(c, c') && AllAccounted(c)
    ensures forall n <- c.tables :: TableAccounted(c', c.tables[n])
    ensures forall msg <- c.sent :: MessageAccounted(c', msg)
  {
    forall n | n in c.tables ensures TableAccounted(c', c.tables[n]) {
      forall x | x in c.tables[n] ensures Accounted(c', x, c.tables[n][x].incarnation) {
        assert Accounted(c, x, c.tables[n][x].incarnation);
      }
    }
  }

  lemma StepAccounted(c: Cluster, a: Action)
    requires AllAccounted(c)
    ensures AllAccounted(Step(c, a))
  {
    if Enabled(c, a) {
      var c' := Act(c, a);
      StepGrows(c, a);
      StillAccounted(c, c');
      if a.Receive? {
        ReceiveAccounted(c, a);
      } else if !a.Start? && a.node in c.tables {
        assert TableAccounted(c', c.tables[a.node]);
        assert TableAccounted(c', c'.tables[a.node]);
      }
      forall n | n in c'.tables ensures TableAccounted(c', c'.tables[n]) {
        if n != a.node { assert c'.tables[n] == c.tables[n]; }
      }
    }
  }

  lemma ReceiveAccounted(c: Cluster, a: Action)
    requires AllAccounted(c) && a.Receive? && Enabled(c, a)
    ensures TableAccounted(Act(c, a), Act(c, a).tables[a.node])
  {
    var c' := Act(c, a);
    StepGrows(c, a);
    StillAccounted(c, c');
    var t := c.tables[a.node];
    match a.msg
    case Heartbeat(p) =>
      assert MessageAccounted(c, a.msg);
      assert Count(c', p.nodeId) == Count(c, p.nodeId) + if Refutes(t, p) then 1 else 0;
    case FullSync(digests) =>
      assert MessageAccounted(c', a.msg);
      SyncAccounted(c', t, digests, a.now);
    case _ =>
  }

  /** In every run, each incarnation in a table or a message is at most the number of refutations
      of that node so far, and no node is named that never started. */
  lemma {:induction false} RunAccounted(actions: seq<Action>)
    ensures AllAccounted(Run(Initial(), actions))
  {
    if actions != [] {
      RunAccounted(actions[..|actions| - 1]);
      StepAccounted(Run(Initial(), actions[..|actions| - 1]), actions[|actions| - 1]);
    }
  }

  // ---- An entry's incarnation never falls ---------------------------------

  lemma {:induction false} SyncKeepsUp(t: Table, digests: seq<MemberDigest>, now: int)
    ensures t.Keys <= AfterSync(t, digests, now).Keys
    ensures forall x <- t :: t[x].incarnation <= AfterSync(t, digests, now)[x].incarnation
  {
    if digests != [] {
      SyncKeepsUp(t, digests[..|digests| - 1], now);
    }
  }

  lemma StepKeepsUp(c: Cluster, a: Action, n: string, x: string)
    requires n in c.tables && x in c.tables[n] && !(a.Start? && a.node == n) && x in Step(c, a).tables[n]
    ensures c.tables[n][x].incarnation <= Step(c, a).tables[n][x].incarnation
  {
    if a.Receive? && a.msg.FullSync? && n == a.node {
      SyncKeepsUp(c.tables[n], a.msg.digests, a.now);
    }
  }

  /** The node keeps running and its table keeps the entry through the whole run. */
  ghost predicate Stays(c: Cluster, actions: seq<Action>, n: string, x: string) {
    && (forall a <- actions :: !(a.Start? && a.node == n))
    && (forall k | 0 <= k <= |actions| :: var r := Run(c, actions[..k]); n in r.tables && x in r.tables[n])
  }

  /** While an entry stays in a table its incarnation never falls. */
  lemma {:induction false} RunKeepsUp(c: Cluster, actions: seq<Action>, n: string, x: string)
    requires Stays(c, actions, n, x)
    ensures n in c.tables && x in c.tables[n]
    ensures var r := Run(c, actions);
            n in r.tables && x in r.tables[n] && c.tables[n][x].incarnation <= r.tables[n][x].incarnation
  {
    assert actions[..|actions|] == actions;
    if actions != [] {
      var front, last := actions[..|actions| - 1], actions[|actions| - 1];
      assert forall k | 0 <= k <= |front| :: front[..k] == actions[..k];
      RunKeepsUp(c, front, n, x);
      assert last in actions;
      StepKeepsUp(Run(c, front), last, n, x);
    } else {
      assert Run(c, actions[..0]) == c;
    }
  }

  // ---- What a full sync brings --------------------------------------------------

  /** A sync that lists a node as not dead makes it known wherever it arrives, with no lower incarnation:
      even if it arrives late, after other messages, or again. */
  lemma SyncSpreads(c: Cluster, a: string, digests: seq<MemberDigest>, between: seq<Action>, b: string, tcp: bool,
                    now: int)
    requires Enabled(c, SendSync(a, digests))
    requires b in Run(Step(c, SendSync(a, digests)), between).tables
    ensures var c' := Run(Step(c, SendSync(a, digests)), between);
            var r := Step(c', Receive(b, FullSync(digests), tcp, now));
            && b in r.tables
            && forall d <- digests | d.state != Dead ::
                 && d.nodeId in c.tables[a] && d.nodeId in r.tables[b]
                 && r.tables[b][d.nodeId].incarnation >= c.tables[a][d.nodeId].incarnation
  {
    hide Run, Synced, AfterSync;
    var sent := Step(c, SendSync(a, digests));
    var c' := Run(sent, between);
    RunKeepsSent(sent, between);
    var t := c'.tables[b];
    SyncLaw(t, digests, now);
    var t' := AfterSync(t, digests, now);
    ReceivedSync(c', b, digests, tcp, now);
    hide Step;
    forall d <- digests | d.state != Dead ensures d.nodeId in t' && t'[d.nodeId].incarnation >= d.incarnation {
      ListedIsKnown(t, digests, now, t', d);
    }
  }

  lemma ReceivedSync(c: Cluster, b: string, digests: seq<MemberDigest>, tcp: bool, now: int)
    requires b in c.tables && FullSync(digests) in c.sent
    ensures var r := Step(c, Receive(b, FullSync(digests), tcp, now));
            b in r.tables && r.tables[b] == AfterSync(c.tables[b], digests, now)
  {
  }

  lemma ListedIsKnown(t: Table, ds: seq<MemberDigest>, now: int, t': Table, d: MemberDigest)
    requires Synced(t, ds, now, t') && d in ds && d.state != Dead
    ensures d.nodeId in t' && t'[d.nodeId].incarnation >= d.incarnation
  {
    var x := d.nodeId;
    if x in t {
      RaisedAbove(t[x], t'[x], ds, x, now, d);
    } else {
      IntroducedAbove(t'[x], ds, x, now, d);
    }
  }

  lemma RaisedAbove(m: Member, m': Member, ds: seq<MemberDigest>, x: string, now: int, d: MemberDigest)
    requires Raised(m, m', ds, x, now) && d in ds && d.nodeId == x
    ensures m'.incarnation >= d.incarnation
  {
  }

  lemma IntroducedAbove(m': Member, ds: seq<MemberDigest>, x: string, now: int, d: MemberDigest)
    requires Introduced(m', ds, x, now) && d in ds && d.nodeId == x && d.state != Dead
    ensures m'.incarnation >= d.incarnation
  {
    var i: nat :| FirstLive(ds, x, i)
                  && Raised(Member(ds[i].addr, ds[i].state, ds[i].incarnation, now, map[]), m', ds[i + 1..], x, now);
    var first := Member(ds[i].addr, ds[i].state, ds[i].incarnation, now, map[]);
    assert first.incarnation <= m'.incarnation;
    var k :| 0 <= k < |ds| && ds[k] == d;
    assert k >= i;
    if k > i {
      assert ds[i + 1..][k - i - 1] == d;
      hide FirstLive;
      RaisedAbove(first, m', ds[i + 1..], x, now, d);
    }
  }

  /** What was sent may arrive at any later step. */
  lemma {:induction false} RunKeepsSent(c: Cluster, actions: seq<Action>)
    ensures c.sent <= Run(c, actions).sent
  {
    if actions != [] {
      RunKeepsSent(c, actions[..|actions| - 1]);
    }
  }

  // ---- What a refutation does to later heartbeats --------------------------

  /** Heartbeats only ever announce a live sender. */
  ghost predicate HeartbeatsAlive(c: Cluster) {
    forall msg <- c.sent :: msg.Heartbeat? ==> msg.payload.state == Alive
  }

  lemma {:induction false} RunHeartbeatsAlive(actions: seq<Action>)
    ensures HeartbeatsAlive(Run(Initial(), actions))
  {
    if actions != [] {
      RunHeartbeatsAlive(actions[..|actions| - 1]);
    }
  }

  /** How much a node's own incarnation can still rise without a sync: by refuting a suspicion of itself. */
  function OwnLift(c: Cluster, node: string): nat
    requires node in c.tables
  {
    if node in c.tables[node] && c.tables[node][node].state == Suspect then 1 else 0
  }

  predicate HeartbeatOf(msg: Message, a: string) {
    msg.Heartbeat? && msg.payload.nodeId == a
  }

  /** What `a` announces of itself, in its own table and in its heartbeats on the way, is below a limit. */
  ghost predicate ClaimsBelow(c: Cluster, a: string, limit: nat)
    requires a in c.tables
  {
    && OwnIncarnation(c, a) + OwnLift(c, a) < limit
    && (forall msg <- c.sent :: HeartbeatOf(msg, a) ==> msg.payload.incarnation + OwnLift(c, a) < limit)
  }

  /** Both nodes run, and `b` knows `a`. */
  ghost predicate Acquainted(c: Cluster, a: string, b: string) {
    a != b && a in c.tables && b in c.tables && a in c.tables[b] && HeartbeatsAlive(c)
  }

  /** Node `b` records a higher incarnation of `a` than `a` itself or any heartbeat of `a` can carry. */
  ghost predicate CutOff(c: Cluster, a: string, b: string) {
    Acquainted(c, a, b) && ClaimsBelow(c, a, c.tables[b][a].incarnation)
  }

  /** Neither node restarts or receives a full sync, and `b` is not told that `a` left. */
  predicate Quiet(act: Action, a: string, b: string) {
    && !(act.Start? && act.node in {a, b})
    && !(act.Receive? && act.node in {a, b} && act.msg.FullSync?)
    && !(act.Receive? && act.node == b && act.msg == Leave(a))
  }

  lemma StepAcquainted(c: Cluster, act: Action, a: string, b: string)
    requires Acquainted(c, a, b) && Quiet(act, a, b)
    ensures Acquainted(Step(c, act), a, b)
  {
  }

  /** What a node says of itself rises only by its own refutation. */
  lemma StepClaims(c: Cluster, act: Action, a: string, limit: nat)
    requires a in c.tables && HeartbeatsAlive(c) && ClaimsBelow(c, a, limit)
    requires !(act.Start? && act.node == a) && !(act.Receive? && act.node == a && act.msg.FullSync?)
    ensures a in Step(c, act).tables && ClaimsBelow(Step(c, act), a, limit)
  {
    var c' := Step(c, act);
    if act.Receive? && act.node == a && act.msg.Heartbeat? && Enabled(c, act) {
      assert act.msg.payload.state == Alive;
      assert act.msg.payload.nodeId == a ==> HeartbeatOf(act.msg, a);
    }
    assert OwnLift(c', a) <= OwnLift(c, a);
    assert OwnIncarnation(c', a) + OwnLift(c', a) < limit;
    forall msg | msg in c'.sent && HeartbeatOf(msg, a) ensures msg.payload.incarnation + OwnLift(c', a) < limit {
      if msg !in c.sent {
        assert msg.payload.incarnation == OwnIncarnation(c, a) || msg.payload.incarnation == 0;
      }
    }
  }

  /** Heartbeats below the recorded incarnation are ignored. */
  lemma StepIgnores(c: Cluster, act: Action, a: string, b: string)
    requires Acquainted(c, a, b) && Quiet(act, a, b) && Acquainted(Step(c, act), a, b)
    requires forall msg <- c.sent :: HeartbeatOf(msg, a) ==> msg.payload.incarnation < c.tables[b][a].incarnation
    ensures var m, m' := c.tables[b][a], Step(c, act).tables[b][a];
            && m'.incarnation == m.incarnation && m'.lastHeartbeat == m.lastHeartbeat
            && (m'.state == m.state || m'.state in {Suspect, Dead}) && (m.state == Dead ==> m'.state == Dead)
    ensures act.Detect? && act.node == b && Elapsed(c.tables[b][a], act.now) > act.timeout ==>
              Step(c, act).tables[b][a].state == Dead
  {
    if act.Receive? && act.node == b && act.msg.Heartbeat? && Enabled(c, act) {
      assert act.msg.payload.nodeId == a ==> HeartbeatOf(act.msg, a);
    }
  }

  lemma StepCutOff(c: Cluster, act: Action, a: string, b: string)
    requires CutOff(c, a, b) && Quiet(act, a, b)
    ensures CutOff(Step(c, act), a, b)
    ensures var m, m' := c.tables[b][a], Step(c, act).tables[b][a];
            && m'.incarnation == m.incarnation && m'.lastHeartbeat == m.lastHeartbeat
            && (m'.state == m.state || m'.state in {Suspect, Dead}) && (m.state == Dead ==> m'.state == Dead)
    ensures act.Detect? && act.node == b && Elapsed(c.tables[b][a], act.now) > act.timeout ==>
              Step(c, act).tables[b][a].state == Dead
  {
    hide Step, Elapsed;
    StepAcquainted(c, act, a, b);
    StepClaims(c, act, a, c.tables[b][a].incarnation);
    StepIgnores(c, act, a, b);
  }

  /** Once cut off, every later heartbeat of `a` is ignored by `b`: the entry is never refreshed, and
      a detector tick after the timeout makes it Dead for good. */
  lemma {:induction false} CutOffForGood(c: Cluster, actions: seq<Action>, a: string, b: string)
    requires CutOff(c, a, b) && forall act <- actions :: Quiet(act, a, b)
    ensures CutOff(Run(c, actions), a, b)
    ensures Run(c, actions).tables[b][a].lastHeartbeat == c.tables[b][a].lastHeartbeat
    ensures (exists act <- actions :: act.Detect? && act.node == b
              && Elapsed(c.tables[b][a], act.now) > act.timeout) ==>
              Run(c, actions).tables[b][a].state == Dead
  {
    hide Step, ClaimsBelow, HeartbeatsAlive, Quiet;
    if actions != [] {
      var front, last := actions[..|actions| - 1], actions[|actions| - 1];
      assert forall act <- front :: act in actions;
      CutOffForGood(c, front, a, b);
      assert last in actions;
      StepCutOff(Run(c, front), last, a, b);
    }
  }

  // ---- And only then ---------------------------------------------------------

  ghost predicate AllQuiet(actions: seq<Action>, a: string, b: string) {
    forall act <- actions :: Quiet(act, a, b)
  }

  /** The time of the last heartbeat of `a` that `b` accepted; none without an entry. */
  function HeardAt(c: Cluster, a: string, b: string): Option<int> {
    if b in c.tables && a in c.tables[b] then Some(c.tables[b][a].lastHeartbeat) else None
  }

  /** Whatever happens, short of a restart, a full sync or a leave, `b` does not hear of `a` again. */
  ghost predicate NeverHeardAgain(c: Cluster, a: string, b: string) {
    forall actions | AllQuiet(actions, a, b) :: HeardAt(Run(c, actions), a, b) == HeardAt(c, a, b)
  }

  lemma RunOne(c: Cluster, act: Action)
    ensures Run(c, [act]) == Step(c, act)
  {
    assert [act][..0] == [] && Run(c, []) == c;
  }

  lemma {:induction false} RunConcat(c: Cluster, first: seq<Action>, then': seq<Action>)
    ensures Run(c, first + then') == Run(Run(c, first), then')
  {
    if then' == [] {
      assert first + then' == first;
    } else {
      assert (first + then')[..|first + then'| - 1] == first + then'[..|then'| - 1];
      RunConcat(c, first, then'[..|then'| - 1]);
    }
  }

  /** A heartbeat on the way that is not below the record is heard. */
  lemma HeardDirectly(c: Cluster, a: string, b: string, msg: Message) returns (act: Action)
    requires Acquainted(c, a, b) && msg in c.sent && HeartbeatOf(msg, a)
    requires msg.payload.incarnation >= c.tables[b][a].incarnation
    ensures Quiet(act, a, b) && HeardAt(Step(c, act), a, b) == Some(c.tables[b][a].lastHeartbeat + 1)
  {
    act := Receive(b, msg, true, c.tables[b][a].lastHeartbeat + 1);
  }

  /** A node whose own incarnation is not below the record is heard once it sends. */
  lemma HeardAfterSending(c: Cluster, a: string, b: string) returns (actions: seq<Action>)
    requires Acquainted(c, a, b) && OwnIncarnation(c, a) >= c.tables[b][a].incarnation
    ensures AllQuiet(actions, a, b) && HeardAt(Run(c, actions), a, b) == Some(c.tables[b][a].lastHeartbeat + 1)
  {
    var send := SendHeartbeat(a, "", 0);
    var c' := Step(c, send);
    var msg := Heartbeat(HeartbeatPayload(a, "", OwnIncarnation(c, a), Alive, map[]));
    assert msg in c'.sent && c'.tables[b] == c.tables[b];
    StepAcquainted(c, send, a, b);
    var act := HeardDirectly(c', a, b, msg);
    actions := [send] + [act];
    RunOne(c, send);
    RunOne(c', act);
    RunConcat(c, [send], [act]);
  }

  /** A node that suspects itself first takes in its own heartbeat, which raises its incarnation. */
  lemma HeardAfterRefuting(c: Cluster, a: string, b: string, msg: Message) returns (actions: seq<Action>)
    requires Acquainted(c, a, b) && OwnLift(c, a) == 1 && msg in c.sent && HeartbeatOf(msg, a)
    requires msg.payload.incarnation + 1 >= c.tables[b][a].incarnation
               && msg.payload.incarnation >= OwnIncarnation(c, a)
    ensures AllQuiet(actions, a, b) && HeardAt(Run(c, actions), a, b) == Some(c.tables[b][a].lastHeartbeat + 1)
  {
    var refute := Receive(a, msg, true, 0);
    var c' := Step(c, refute);
    assert msg.payload.state == Alive;
    assert OwnIncarnation(c', a) == msg.payload.incarnation + 1 && c'.tables[b] == c.tables[b];
    StepAcquainted(c, refute, a, b);
    var rest := HeardAfterSending(c', a, b);
    actions := [refute] + rest;
    RunOne(c, refute);
    RunConcat(c, [refute], rest);
  }

  /** If its claims are not all below the record, there is a way for `a` to be heard. */
  lemma CanBeHeard(c: Cluster, a: string, b: string) returns (actions: seq<Action>)
    requires Acquainted(c, a, b) && !ClaimsBelow(c, a, c.tables[b][a].incarnation)
    ensures AllQuiet(actions, a, b) && HeardAt(Run(c, actions), a, b) == Some(c.tables[b][a].lastHeartbeat + 1)
  {
    var limit, own := c.tables[b][a].incarnation, OwnIncarnation(c, a);
    if own >= limit {
      actions := HeardAfterSending(c, a, b);
    } else if own + OwnLift(c, a) >= limit {
      var send := SendHeartbeat(a, "", 0);
      var c' := Step(c, send);
      var msg := Heartbeat(HeartbeatPayload(a, "", own, Alive, map[]));
      assert msg in c'.sent && c'.tables[b] == c.tables[b];
      StepAcquainted(c, send, a, b);
      var rest := HeardAfterRefuting(c', a, b, msg);
      actions := [send] + rest;
      RunOne(c, send);
      RunConcat(c, [send], rest);
    } else {
      var msg :| msg in c.sent && HeartbeatOf(msg, a) && msg.payload.incarnation + OwnLift(c, a) >= limit;
      if msg.payload.incarnation >= limit {
        var act := HeardDirectly(c, a, b, msg);
        actions := [act];
        RunOne(c, act);
      } else {
        actions := HeardAfterRefuting(c, a, b, msg);
      }
    }
  }

  /** A peer that is known and keeps sending is never heard again exactly when it is cut off. */
  lemma NeverHeardIffCutOff(c: Cluster, a: string, b: string)
    requires Acquainted(c, a, b)
    ensures NeverHeardAgain(c, a, b) <==> CutOff(c, a, b)
  {
    if CutOff(c, a, b) {
      forall actions | AllQuiet(actions, a, b) ensures HeardAt(Run(c, actions), a, b) == HeardAt(c, a, b) {
        CutOffForGood(c, actions, a, b);
      }
    } else {
      var actions := CanBeHeard(c, a, b);
      assert HeardAt(Run(c, actions), a, b) != HeardAt(c, a, b);
    }
  }

  /** After any run without refutations of `a`, the first one, made by another node `b`, cuts `a` off. */
  lemma FirstRefutationCutsOff(before: seq<Action>, b: string, p: HeartbeatPayload, tcp: bool, now: int)
    requires var c := Run(Initial(), before);
             && Count(c, p.nodeId) == 0 && p.nodeId != b && p.nodeId in c.tables
             && Enabled(c, Receive(b, Heartbeat(p), tcp, now)) && Refutes(c.tables[b], p) && OwnLift(c, p.nodeId) == 0
    ensures CutOff(Step(Run(Initial(), before), Receive(b, Heartbeat(p), tcp, now)), p.nodeId, b)
  {
    RunAccounted(before);
    RunHeartbeatsAlive(before);
    var c := Run(Initial(), before);
    var a := p.nodeId;
    var c' := Step(c, Receive(b, Heartbeat(p), tcp, now));
    assert TableAccounted(c, c.tables[b]) && TableAccounted(c, c.tables[a]);
    assert c'.tables[b][a].incarnation == 1 && c'.tables[a] == c.tables[a] && c'.sent == c.sent;
    forall msg | msg in c'.sent && HeartbeatOf(msg, a) ensures msg.payload.incarnation < 1 {
      assert MessageAccounted(c, msg);
    }
  }

  /** A heartbeat arrives, half the timeout passes, and the same heartbeat arrives again. */
  function RepeatedHeartbeat(a: string, b: string, timeout: nat): seq<Action> {
    var msg := Heartbeat(HeartbeatPayload(a, "", 0, Alive, map[]));
    [Start(a, "", 0), Start(b, "", 0), SendHeartbeat(a, "", 0), Receive(b, msg, true, 0),
     Detect(b, timeout, timeout), Receive(b, msg, true, timeout)]
  }

  /** Two nodes that started and one heartbeat on the way. */
  lemma FirstThree(a: string, b: string)
    requires a != b
    ensures var self := NewMember("", 0).(state := Self);
            var msg := Heartbeat(HeartbeatPayload(a, "", 0, Alive, map[]));
            Step(Step(Step(Initial(), Start(a, "", 0)), Start(b, "", 0)), SendHeartbeat(a, "", 0))
            == Cluster(map[a := map[a := self], b := map[b := self]], {msg}, {a, b}, map[])
  {
    var self := NewMember("", 0).(state := Self);
    var c2 := Step(Step(Initial(), Start(a, "", 0)), Start(b, "", 0));
    assert c2 == Cluster(map[a := map[a := self], b := map[b := self]], {}, {a, b}, map[]);
    assert Touched(c2.tables[a], a, 0) == map[a := self];
  }

  /** The heartbeat arrives, and a tick finds it too old. */
  lemma NextTwo(c: Cluster, a: string, b: string, timeout: nat)
    requires a != b && timeout > 0 && a in c.tables && b in c.tables && a !in c.tables[b]
    requires Heartbeat(HeartbeatPayload(a, "", 0, Alive, map[])) in c.sent
    ensures var msg := Heartbeat(HeartbeatPayload(a, "", 0, Alive, map[]));
            var c' := Step(Step(c, Receive(b, msg, true, 0)), Detect(b, timeout, timeout));
            && c'.tables.Keys == c.tables.Keys && c'.tables[a] == c.tables[a] && c'.sent == c.sent
                && c'.refutations == c.refutations
            && a in c'.tables[b] && c'.tables[b][a].state == Suspect && c'.tables[b][a].incarnation == 0
  {
    var msg := Heartbeat(HeartbeatPayload(a, "", 0, Alive, map[]));
    var c4 := Step(c, Receive(b, msg, true, 0));
    assert c4.tables[b][a] == Member("", Alive, 0, 0, map[]);
  }

  /** That is enough to cut `a` off, for any two nodes and any positive timeout. */
  lemma RepeatedHeartbeatCutsOff(a: string, b: string, timeout: nat)
    requires a != b && timeout > 0
    ensures CutOff(Run(Initial(), RepeatedHeartbeat(a, b, timeout)), a, b)
  {
    hide Step, CutOff, Initial;
    var all := RepeatedHeartbeat(a, b, timeout);
    var msg := Heartbeat(HeartbeatPayload(a, "", 0, Alive, map[]));
    FirstThree(a, b);
    NextTwo(Step(Step(Step(Initial(), all[0]), all[1]), all[2]), a, b, timeout);
    RunFive(Initial(), all);
    RunNext(Initial(), all, 5);
    assert all[..6] == all;
    FirstRefutationCutsOff(all[..5], b, msg.payload, true, timeout);
  }

  lemma RunFive(c: Cluster, all: seq<Action>)
    requires |all| >= 5
    ensures Run(c, all[..5]) == Step(Step(Step(Step(Step(c, all[0]), all[1]), all[2]), all[3]), all[4])
  {
    hide Step;
    assert Run(c, all[..0]) == c;
    RunNext(c, all, 0);
    RunNext(c, all, 1);
    RunNext(c, all, 2);
    RunNext(c, all, 3);
    RunNext(c, all, 4);
  }

  lemma RunNext(c: Cluster, all: seq<Action>, k: nat)
    requires k < |all|
    ensures Run(c, all[..k + 1]) == Step(Run(c, all[..k]), all[k])
  {
    assert all[..k + 1][..k] == all[..k];
  }
}
