/** The broker's retained messages, looked up by topic filter. */
module RetainedStores {
  import opened Options
  import opened TopicFilters
  import opened TopicIndex
  import opened SubscriptionLists
  import opened TopicTries

  datatype RetainedMessage = RetainedMessage(payload: seq<bv8>, qos: QoS)

  class RetainedStore {
    var messages: map<string, RetainedMessage>

    constructor ()
      ensures messages == map[]
    {
      messages := map[];
    }

    method Store(topic: string, payload: seq<bv8>, qos: QoS)
      modifies this
      ensures messages == old(messages)[topic := RetainedMessage(payload, qos)]
    {
      messages := messages[topic := RetainedMessage(payload, qos)];
    }

    method Remove(topic: string)
      modifies this
      ensures messages == old(messages) - {topic}
    {
      messages := messages - {topic};
    }

    /** Each retained message whose topic the filter matches, once, in any order. */
    method MatchRetained(filter: string) returns (found: seq<(string, RetainedMessage)>)
      ensures forall i, j | 0 <= i < j < |found| :: found[i].0 != found[j].0
      ensures forall t, m :: (t, m) in found <==>
                t in messages && messages[t] == m && Matches(Split(filter), Split(t))
    {
      found := [];
      var todo := messages.Keys;
      while todo != {}
        invariant todo <= messages.Keys
        invariant forall i, j | 0 <= i < j < |found| :: found[i].0 != found[j].0
        invariant forall t, m :: (t, m) in found <==>
                    t in messages && t !in todo && messages[t] == m && Matches(Split(filter), Split(t))
      {
        var topic :| topic in todo;
        todo := todo - {topic};
        var b := TopicMatchesFilter(filter, topic);
        if b {
          assert forall i | 0 <= i < |found| :: (found[i].0, found[i].1) in found;
          found := found + [(topic, messages[topic])];
        }
      }
    }
  }

  // ---- Runs -----------------------------------------------------------------

  /** A publication that is retained, or an empty one that clears the topic. */
  datatype RetainOp = Keep(topic: string, message: RetainedMessage) | Clear(topic: string)

  /** What the last call for a topic left there. */
  function Latest(ops: seq<RetainOp>, topic: string): Option<RetainedMessage> {
    if ops == [] then None
    else
      var last := ops[|ops| - 1];
      if last.topic != topic then Latest(ops[..|ops| - 1], topic)
      else if last.Keep? then Some(last.message)
      else None
  }

  /** After any calls, a filter finds for each topic it matches what the last call for it left. */
  method LatestRetained(ops: seq<RetainOp>, filter: string) returns (found: seq<(string, RetainedMessage)>)
    ensures forall i, j | 0 <= i < j < |found| :: found[i].0 != found[j].0
    ensures forall t, m :: (t, m) in found <==> Latest(ops, t) == Some(m) && Matches(Split(filter), Split(t))
  {
    var store := new RetainedStore();
    for i := 0 to |ops|
      invariant fresh(store)
      invariant forall t ::
                  if t in store.messages then Latest(ops[..i], t) == Some(store.messages[t])
                      else Latest(ops[..i], t) == None
    {
      assert ops[..i + 1][..i] == ops[..i];
      match ops[i]
      case Keep(topic, message) => store.Store(topic, message.payload, message.qos);
      case Clear(topic) => store.Remove(topic);
    }
    assert ops[..|ops|] == ops;
    found := store.MatchRetained(filter);
  }

  // ---- Live and retained messages ---------------------------------------------

  /** One pair less means one delivery less, if the pair's filter matches. */
  lemma MatchingLess(plain: PlainIndex, pair: Pair, topic: string, sub: Subscription)
    requires pair in plain
    ensures var lost := Matches(Split(pair.filter), Split(topic)) && sub == Subscription(pair.clientId, plain[pair]);
            |Matching(plain, topic, sub)| == |Matching(plain - {pair}, topic, sub)| + if lost then 1 else 0
  {
    hide Matches;
    var lost := Matches(Split(pair.filter), Split(topic)) && sub == Subscription(pair.clientId, plain[pair]);
    assert Matching(plain, topic, sub) == Matching(plain - {pair}, topic, sub) + if lost then {pair} else {};
  }

  /** Live routing and retained lookup agree on every well formed filter that does not mix `+` and `#`:
      of a subscribed pair, unsubscribing costs exactly one delivery of a message on the topic if the
      filter finds the topic's retained message, and none if it does not. */
  method LiveAndRetainedAgree(ops: seq<Op>, pair: Pair, topic: string, kept: seq<RetainOp>)
    returns (live: seq<Subscription>, without: seq<Subscription>, found: seq<(string, RetainedMessage)>)
    requires Regular(ops) && pair in PlainRun(ops)
    ensures Latest(kept, topic).Some? ==>
              multiset(live) == multiset(without)
                                + if (topic, Latest(kept, topic).value) in found
                                  then multiset{Subscription(pair.clientId, PlainRun(ops)[pair])} else multiset{}
  {
    hide WellFormed, Mixed, Matches, Matching;
    RunFilters(ops, set op | op in ops && !op.RemoveClient? :: op.filter);
    var gone := Op.Unsubscribe(pair.clientId, pair.filter);
    live := Publish(ops, topic);
    without := Publish(ops + [gone], topic);
    found := LatestRetained(kept, pair.filter);
    ghost var plain := PlainRun(ops);
    assert (ops + [gone])[..|ops|] == ops && PlainRun(ops + [gone]) == plain - {pair};
    ghost var mine := Subscription(pair.clientId, plain[pair]);
    ghost var lost := if Matches(Split(pair.filter), Split(topic)) then multiset{mine} else multiset{};
    forall sub ensures multiset(live)[sub] == multiset(without)[sub] + lost[sub] {
      MatchingLess(plain, pair, topic, sub);
    }
    assert multiset(live) == multiset(without) + lost;
  }
}
