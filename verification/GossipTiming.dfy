/** How long a peer's entry stays Alive: the failure detector over runs of the whole cluster. */
module GossipTiming {
  import opened Membership
  import opened GossipCluster

  // ---- Timing of the detector ---------------------------------------------

  /** What happens to one peer's entry: an accepted heartbeat, or a tick. */
  datatype PeerEvent = Accepted(at: int) | Tick(at: int)

  function AfterEvent(m: Member, e: PeerEvent, timeout: nat): Member {
    match e
    case Accepted(now) => m.(state := Alive, lastHeartbeat := now)
    case Tick(now) => Aged(m, now, timeout)
  }

  function AfterEvents(m: Member, es: seq<PeerEvent>, timeout: nat): Member {
    if es == [] then m else AfterEvent(AfterEvents(m, es[..|es| - 1], timeout), es[|es| - 1], timeout)
  }

  /** The time of the last accepted heartbeat among the events, or of the one before them. */
  function LastAccepted(start: int, es: seq<PeerEvent>): int {
    if es == [] then start
    else if es[|es| - 1].Accepted? then es[|es| - 1].at
    else LastAccepted(start, es[..|es| - 1])
  }

  lemma {:induction false} LastAcceptedKept(m: Member, es: seq<PeerEvent>, timeout: nat)
    ensures AfterEvents(m, es, timeout).lastHeartbeat == LastAccepted(m.lastHeartbeat, es)
  {
    if es != [] {
      LastAcceptedKept(m, es[..|es| - 1], timeout);
    }
  }

  /** Every tick finds a heartbeat no older than `age`. */
  ghost predicate HeardWithin(start: int, es: seq<PeerEvent>, age: nat) {
    forall i | 0 <= i < |es| && es[i].Tick? :: es[i].at - LastAccepted(start, es[..i]) <= age
  }

  /** A peer heard from within half the timeout at every tick never leaves Alive. */
  lemma {:induction false} HeardStaysAlive(m: Member, es: seq<PeerEvent>, timeout: nat)
    requires m.state == Alive && HeardWithin(m.lastHeartbeat, es, timeout / 2)
    ensures AfterEvents(m, es, timeout).state == Alive
  {
    if es != [] {
      var front := es[..|es| - 1];
      assert forall i | 0 <= i < |front| :: es[..i] == front[..i];
      HeardStaysAlive(m, front, timeout);
      LastAcceptedKept(m, front, timeout);
    }
  }

  /** Only ticks, each at most `gap` later than the one before. */
  ghost predicate TicksWithin(es: seq<PeerEvent>, gap: nat) {
    && (forall i | 0 <= i < |es| :: es[i].Tick?)
    && (forall i | 0 < i < |es| :: es[i].at <= es[i - 1].at + gap)
  }

  /** One tick on a peer that was not heard of since: Dead is not reached from Alive. */
  lemma TickOnSilent(m: Member, timeout: nat, at: int, next: int)
    requires m.state in {Alive, Suspect, Dead} && (m.state == Alive ==> at - m.lastHeartbeat <= timeout / 2)
    requires next <= at + (timeout - timeout / 2)
    ensures var m' := Aged(m, next, timeout);
            && m'.state in {Alive, Suspect, Dead}
            && (m'.state == Alive ==> m.state == Alive && next - m.lastHeartbeat <= timeout / 2)
            && (m'.state == Dead ==> m.state in {Suspect, Dead})
  {
  }

  /** A first tick within the timeout. */
  lemma FirstTick(m: Member, timeout: nat, at: int)
    requires m.state == Alive && at - m.lastHeartbeat <= timeout
    ensures var m' := Aged(m, at, timeout);
            m'.state in {Alive, Suspect} && (m'.state == Alive ==> at - m.lastHeartbeat <= timeout / 2)
  {
  }

  /** A first tick later than the timeout leaves the peer Dead, and later ticks do too. */
  lemma {:induction false} LateIsDead(m: Member, es: seq<PeerEvent>, timeout: nat)
    requires es != [] && (forall i | 0 <= i < |es| :: es[i].Tick?) && es[0].at - m.lastHeartbeat > timeout
    ensures AfterEvents(m, es, timeout).state == Dead
  {
    if |es| == 1 {
      assert AfterEvents(m, es[..0], timeout) == m;
    } else {
      LateIsDead(m, es[..|es| - 1], timeout);
    }
  }

  /** Some of the events, but not all, leave the peer Suspect. */
  ghost predicate SuspectedOnTheWay(m: Member, es: seq<PeerEvent>, timeout: nat) {
    exists k :: 0 < k < |es| && AfterEvents(m, es[..k], timeout).state == Suspect
  }

  lemma SuspectedLonger(m: Member, es: seq<PeerEvent>, e: PeerEvent, timeout: nat)
    requires es != [] && (SuspectedOnTheWay(m, es, timeout) || AfterEvents(m, es, timeout).state == Suspect)
    ensures SuspectedOnTheWay(m, es + [e], timeout)
  {
    hide AfterEvents;
    if SuspectedOnTheWay(m, es, timeout) {
      var k :| 0 < k < |es| && AfterEvents(m, es[..k], timeout).state == Suspect;
      assert (es + [e])[..k] == es[..k];
    } else {
      assert (es + [e])[..|es|] == es;
    }
  }

  /** With ticks close enough, a silent Alive peer is Suspect at some tick before it is Dead. */
  lemma {:induction false} SuspectBeforeDead(m: Member, es: seq<PeerEvent>, timeout: nat)
    requires m.state == Alive && es != [] && TicksWithin(es, timeout - timeout / 2)
    requires es[0].at - m.lastHeartbeat <= timeout
    ensures AfterEvents(m, es, timeout).state in {Alive, Suspect, Dead}
    ensures AfterEvents(m, es, timeout).state == Alive ==> es[|es| - 1].at - m.lastHeartbeat <= timeout / 2
    ensures AfterEvents(m, es, timeout).state == Dead ==> SuspectedOnTheWay(m, es, timeout)
  {
    hide Aged, SuspectedOnTheWay;
    var front, last := es[..|es| - 1], es[|es| - 1];
    LastAcceptedKept(m, front, timeout);
    SilentLast(m.lastHeartbeat, front);
    var before := AfterEvents(m, front, timeout);
    if front == [] {
      assert before == m;
      FirstTick(m, timeout, last.at);
    } else {
      assert last.at <= es[|es| - 2].at + (timeout - timeout / 2);
      SuspectBeforeDead(m, front, timeout);
      TickOnSilent(before, timeout, es[|es| - 2].at, last.at);
      if before.state != Alive {
        SuspectedLonger(m, front, last, timeout);
        assert front + [last] == es;
      }
    }
  }

  lemma {:induction false} SilentLast(start: int, es: seq<PeerEvent>)
    requires forall i | 0 <= i < |es| :: es[i].Tick?
    ensures LastAccepted(start, es) == start
  {
    if es != [] {
      SilentLast(start, es[..|es| - 1]);
    }
  }

  // ---- The entry of one node in another's table, over cluster runs ----------

  /** Nothing but heartbeats of `a` and ticks with this timeout acts on the entry of `a` at `b`. */
  predicate Watched(act: Action, a: string, b: string, timeout: nat) {
    match act
    case Start(n, _, _) => n != b
    case Detect(n, _, t) => n == b ==> t == timeout
    case Receive(n, msg, _, _) =>
      n == b ==> (msg.FullSync? ==> forall d <- msg.digests :: d.nodeId != a) && msg != Leave(a)
    case _ => true
  }

  /** Node `b` has an entry for another node `a`. */
  ghost predicate Knows(c: Cluster, a: string, b: string) {
    a != b && b in c.tables && a in c.tables[b] && HeartbeatsAlive(c)
  }

  /** What an action is to that entry: a heartbeat that is accepted, a tick, or nothing. */
  function EventOf(c: Cluster, act: Action, a: string, b: string): (es: seq<PeerEvent>)
    ensures |es| <= 1
  {
    if !Enabled(c, act) || act.node != b then []
    else if act.Detect? then [Tick(act.now)]
    else if act.Receive? && act.msg.Heartbeat? && act.msg.payload.nodeId == a && a in c.tables[b]
            && act.msg.payload.incarnation >= c.tables[b][a].incarnation then [Accepted(act.now)]
    else []
  }

  function Events(c: Cluster, actions: seq<Action>, a: string, b: string): seq<PeerEvent> {
    if actions == [] then []
    else
      var front := actions[..|actions| - 1];
      Events(c, front, a, b) + EventOf(Run(c, front), actions[|actions| - 1], a, b)
  }

  /** Same state and same time of the last heartbeat. */
  predicate SameView(m: Member, m': Member) {
    m.state == m'.state && m.lastHeartbeat == m'.lastHeartbeat
  }

  lemma {:induction false} SyncSpares(t: Table, digests: seq<MemberDigest>, now: int, a: string)
    requires a in t && forall d <- digests :: d.nodeId != a
    ensures a in AfterSync(t, digests, now) && AfterSync(t, digests, now)[a] == t[a]
  {
    if digests != [] {
      SyncSpares(t, digests[..|digests| - 1], now, a);
    }
  }

  lemma StepKnows(c: Cluster, act: Action, a: string, b: string, timeout: nat)
    requires Knows(c, a, b) && Watched(act, a, b, timeout)
    ensures Knows(Step(c, act), a, b)
  {
    if act.Receive? && act.node == b && act.msg.FullSync? {
      SyncSpares(c.tables[b], act.msg.digests, act.now, a);
    }
  }

  /** One action changes the entry as its event says. */
  lemma StepEvent(c: Cluster, act: Action, a: string, b: string, timeout: nat)
    requires Knows(c, a, b) && Watched(act, a, b, timeout)
    ensures Knows(Step(c, act), a, b)
    ensures var m, m', es := c.tables[b][a], Step(c, act).tables[b][a], EventOf(c, act, a, b);
            SameView(m', if es == [] then m else AfterEvent(m, es[0], timeout))
  {
    StepKnows(c, act, a, b, timeout);
    if act.Receive? && act.node == b && act.msg.FullSync? {
      SyncSpares(c.tables[b], act.msg.digests, act.now, a);
    }
  }

  lemma AppendEvent(start: Member, es: seq<PeerEvent>, m: Member, e: seq<PeerEvent>, timeout: nat)
    requires SameView(m, AfterEvents(start, es, timeout)) && |e| <= 1
    ensures SameView(if e == [] then m else AfterEvent(m, e[0], timeout), AfterEvents(start, es + e, timeout))
  {
    if e == [] {
      assert es + e == es;
    } else {
      assert (es + e)[..|es|] == es && (es + e)[|es|] == e[0];
    }
  }

  /** Over a run, the entry is what its events make of it. */
  lemma {:induction false} RunEvents(c: Cluster, actions: seq<Action>, a: string, b: string, timeout: nat)
    requires Knows(c, a, b) && forall act <- actions :: Watched(act, a, b, timeout)
    ensures Knows(Run(c, actions), a, b)
    ensures SameView(Run(c, actions).tables[b][a], AfterEvents(c.tables[b][a], Events(c, actions, a, b), timeout))
  {
    hide Watched, Step, EventOf, AfterEvent, HeartbeatsAlive, SameView;
    if actions == [] {
      assert SameView(c.tables[b][a], c.tables[b][a]) by { ViewItself(c.tables[b][a]); }
    } else {
      var front, last := actions[..|actions| - 1], actions[|actions| - 1];
      assert forall act <- front :: act in actions;
      assert last in actions;
      RunEvents(c, front, a, b, timeout);
      var r := Run(c, front);
      var es, e := Events(c, front, a, b), EventOf(r, last, a, b);
      StepEvent(r, last, a, b, timeout);
      AppendEvent(c.tables[b][a], es, r.tables[b][a], e, timeout);
      SameViews(Step(r, last).tables[b][a], if e == [] then r.tables[b][a]
          else AfterEvent(r.tables[b][a], e[0], timeout),
                AfterEvents(c.tables[b][a], es + e, timeout));
    }
  }

  lemma ViewItself(m: Member)
    ensures SameView(m, m)
  {
  }

  lemma SameViews(m: Member, m': Member, m'': Member)
    requires SameView(m, m') && SameView(m', m'')
    ensures SameView(m, m'')
  {
  }

  // ---- The results, for clusters ---------------------------------------------

  /** A run in which only heartbeats and ticks act on the entry. */
  ghost predicate WatchedRun(c: Cluster, actions: seq<Action>, a: string, b: string, timeout: nat) {
    Knows(c, a, b) && forall act <- actions :: Watched(act, a, b, timeout)
  }

  /** The time of the entry is that of the last heartbeat accepted from the peer. */
  lemma TimeIsLastAccepted(c: Cluster, actions: seq<Action>, a: string, b: string, timeout: nat)
    requires WatchedRun(c, actions, a, b, timeout)
    ensures Knows(Run(c, actions), a, b)
    ensures Run(c, actions).tables[b][a].lastHeartbeat ==
              LastAccepted(c.tables[b][a].lastHeartbeat, Events(c, actions, a, b))
  {
    RunEvents(c, actions, a, b, timeout);
    LastAcceptedKept(c.tables[b][a], Events(c, actions, a, b), timeout);
  }

  /** A peer from which, at every tick, a heartbeat was accepted within half the timeout never leaves Alive. */
  lemma HeardPeerStaysAlive(c: Cluster, actions: seq<Action>, a: string, b: string, timeout: nat)
    requires WatchedRun(c, actions, a, b, timeout) && c.tables[b][a].state == Alive
    requires HeardWithin(c.tables[b][a].lastHeartbeat, Events(c, actions, a, b), timeout / 2)
    ensures Knows(Run(c, actions), a, b) && Run(c, actions).tables[b][a].state == Alive
  {
    RunEvents(c, actions, a, b, timeout);
    HeardStaysAlive(c.tables[b][a], Events(c, actions, a, b), timeout);
  }

  /** A peer from which nothing was accepted for longer than the timeout is Dead after the next tick. */
  lemma SilentPeerIsDead(c: Cluster, actions: seq<Action>, a: string, b: string, timeout: nat, now: int)
    requires WatchedRun(c, actions, a, b, timeout)
    requires now - LastAccepted(c.tables[b][a].lastHeartbeat, Events(c, actions, a, b)) > timeout
    ensures var r := Step(Run(c, actions), Detect(b, now, timeout)); Knows(r, a, b) && r.tables[b][a].state == Dead
  {
    TimeIsLastAccepted(c, actions, a, b, timeout);
  }

  /** Every beginning of the events is what some beginning of the run was to the entry. */
  lemma {:induction false} EventsOfPrefix(c: Cluster, actions: seq<Action>, a: string, b: string, j: nat)
    returns (k: nat)
    requires j <= |Events(c, actions, a, b)|
    ensures k <= |actions| && Events(c, actions[..k], a, b) == Events(c, actions, a, b)[..j]
  {
    hide EventOf, Run;
    var es := Events(c, actions, a, b);
    if j == |es| {
      k := |actions|;
      assert actions[..k] == actions && es[..j] == es;
    } else {
      var front := actions[..|actions| - 1];
      k := EventsOfPrefix(c, front, a, b, j);
      assert actions[..k] == front[..k];
      assert Events(c, front, a, b)[..j] == es[..j];
    }
  }

  /** What a beginning of the run was to the entry is a beginning of the events. */
  lemma {:induction false} PrefixEvents(c: Cluster, actions: seq<Action>, a: string, b: string, k: nat)
    requires k <= |actions|
    ensures Events(c, actions[..k], a, b) <= Events(c, actions, a, b)
  {
    hide EventOf, Run;
    if k == |actions| {
      assert actions[..k] == actions;
    } else {
      var front := actions[..|actions| - 1];
      PrefixEvents(c, front, a, b, k);
      assert actions[..k] == front[..k];
    }
  }

  /** With ticks close enough, a silent Alive peer that ends Dead was Suspect somewhere in the run if and
      only if the first tick came within the timeout. */
  lemma SilentPeerIsSuspectFirst(c: Cluster, actions: seq<Action>, a: string, b: string, timeout: nat)
    requires WatchedRun(c, actions, a, b, timeout) && c.tables[b][a].state == Alive
    requires Events(c, actions, a, b) != [] && TicksWithin(Events(c, actions, a, b), timeout - timeout / 2)
    ensures Knows(Run(c, actions), a, b)
    ensures Run(c, actions).tables[b][a].state == Dead ==>
              ((exists k :: 0 <= k <= |actions| && SuspectAt(c, actions[..k], a, b))
               <==> Events(c, actions, a, b)[0].at - c.tables[b][a].lastHeartbeat <= timeout)
  {
    hide Watched, Run, Events, HeartbeatsAlive;
    var m, es := c.tables[b][a], Events(c, actions, a, b);
    RunEvents(c, actions, a, b, timeout);
    if es[0].at - m.lastHeartbeat > timeout {
      forall k | 0 <= k <= |actions| ensures !SuspectAt(c, actions[..k], a, b) {
        NeverSuspect(c, actions, a, b, timeout, k);
      }
    } else if Run(c, actions).tables[b][a].state == Dead {
      SuspectBeforeDead(m, es, timeout);
      var j :| 0 < j < |es| && AfterEvents(m, es[..j], timeout).state == Suspect;
      var k := EventsOfPrefix(c, actions, a, b, j);
      assert forall act <- actions[..k] :: act in actions;
      RunEvents(c, actions[..k], a, b, timeout);
      assert SuspectAt(c, actions[..k], a, b);
    }
  }

  lemma NeverSuspect(c: Cluster, actions: seq<Action>, a: string, b: string, timeout: nat, k: nat)
    requires WatchedRun(c, actions, a, b, timeout) && c.tables[b][a].state == Alive && k <= |actions|
    requires var es := Events(c, actions, a, b);
             && es != [] && (forall i | 0 <= i < |es| :: es[i].Tick?)
             && es[0].at - c.tables[b][a].lastHeartbeat > timeout
    ensures !SuspectAt(c, actions[..k], a, b)
  {
    hide Watched, Run, Events, HeartbeatsAlive;
    var m, es := c.tables[b][a], Events(c, actions[..k], a, b);
    assert forall act <- actions[..k] :: act in actions;
    RunEvents(c, actions[..k], a, b, timeout);
    PrefixEvents(c, actions, a, b, k);
    if es == [] {
      assert AfterEvents(m, es, timeout) == m;
    } else {
      LateIsDead(m, es, timeout);
    }
  }

  ghost predicate SuspectAt(c: Cluster, actions: seq<Action>, a: string, b: string) {
    Knows(Run(c, actions), a, b) && Run(c, actions).tables[b][a].state == Suspect
  }

  /** In every cluster, ticks further apart than that take an Alive peer straight to Dead. */
  lemma SuspicionSkipped(c: Cluster, a: string, b: string, timeout: nat, gap: nat)
    requires Knows(c, a, b) && c.tables[b][a].state == Alive && gap > timeout - timeout / 2
    ensures var first := c.tables[b][a].lastHeartbeat + timeout / 2;
            var r := Step(c, Detect(b, first, timeout));
            var r' := Step(r, Detect(b, first + gap, timeout));
            && Knows(r, a, b) && r.tables[b][a].state == Alive
            && Knows(r', a, b) && r'.tables[b][a].state == Dead
  {
    var first := c.tables[b][a].lastHeartbeat + timeout / 2;
    var r := Step(c, Detect(b, first, timeout));
    assert r.tables[b][a] == c.tables[b][a];
  }
}
