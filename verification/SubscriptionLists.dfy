/** The broker's subscription lists as values: what `retain` and `push` keep, and how the
    lists together hold the table of filed entries. */
module SubscriptionLists {
  import opened Sequences
  import opened TopicFilters
  import opened TopicIndex

  // ---- Subscription lists ------------------------------------------------

  /** `Vec::retain` with `s.client_id != client`. */
  function Retain(list: seq<Subscription>, client: string): (r: seq<Subscription>)
    ensures forall s :: s in r <==> s in list && s.clientId != client
  {
    if list == [] then []
    else
      assert list == [list[0]] + list[1..];
      (if list[0].clientId != client then [list[0]] else []) + Retain(list[1..], client)
  }

  /** Entries are kept or dropped one by one, in order. */
  lemma {:induction false} RetainInOrder(list: seq<Subscription>, s: Subscription, client: string)
    ensures Retain([], client) == []
    ensures Retain(list + [s], client) == Retain(list, client) + if s.clientId != client then [s] else []
  {
    if list == [] {
      assert list + [s] == [s] && [s][1..] == [];
    } else {
      assert (list + [s])[1..] == list[1..] + [s];
      RetainInOrder(list[1..], s, client);
    }
  }

  ghost predicate OncePerClient(list: seq<Subscription>) {
    forall i, j | 0 <= i < j < |list| :: list[i].clientId != list[j].clientId
  }

  lemma {:induction false} RetainOnce(list: seq<Subscription>, client: string)
    requires OncePerClient(list)
    ensures OncePerClient(Retain(list, client))
  {
    if list != [] {
      RetainOnce(list[1..], client);
      var rest := Retain(list[1..], client);
      assert forall s <- rest :: s in list[1..];
      assert forall i | 0 <= i < |rest| :: rest[i] in rest;
    }
  }

  /** The list holds exactly the table's entries for the slot, each once. */
  ghost predicate Lists(list: seq<Subscription>, slot: Slot, table: Table) {
    && OncePerClient(list)
    && (forall s <- list :: Key(slot, s.clientId) in table && table[Key(slot, s.clientId)] == s.qos)
    && (forall k <- table :: k.slot == slot ==> Subscription(k.clientId, table[k]) in list)
  }

  lemma ListsAfterRetain(list: seq<Subscription>, slot: Slot, table: Table, client: string)
    requires Lists(list, slot, table)
    ensures Lists(Retain(list, client), slot, table - {Key(slot, client)})
  {
    RetainOnce(list, client);
  }

  lemma ListsAfterPut(list: seq<Subscription>, slot: Slot, table: Table, sub: Subscription)
    requires Lists(list, slot, table)
    ensures Lists(Retain(list, sub.clientId) + [sub], slot, table[Key(slot, sub.clientId) := sub.qos])
  {
    RetainOnce(list, sub.clientId);
    var kept := Retain(list, sub.clientId);
    assert forall i | 0 <= i < |kept| :: kept[i] in kept;
  }

  /** The two tables hold the same entries for the slot. */
  ghost predicate SameAt(slot: Slot, t: Table, t': Table) {
    forall k: Key | k.slot == slot :: (k in t <==> k in t') && (k in t ==> t[k] == t'[k])
  }

  /** A change to one entry leaves every other slot as it was. */
  lemma OtherSlots(t: Table, t': Table, key: Key)
    requires t - {key} == t' - {key}
    ensures forall s: Slot | s != key.slot :: SameAt(s, t, t')
  {
    forall k: Key | k.slot != key.slot ensures (k in t <==> k in t') && (k in t ==> t[k] == t'[k]) {
      assert k in t <==> k in t - {key};
      assert k in t' <==> k in t' - {key};
    }
  }

  lemma ListsElsewhere(list: seq<Subscription>, slot: Slot, t: Table, t': Table)
    requires Lists(list, slot, t) && SameAt(slot, t, t')
    ensures Lists(list, slot, t')
  {
  }

  lemma WildListsElsewhere(list: WildList, t: Table, t': Table)
    requires WildLists(list, t)
    requires forall s: Slot | s.Wild? :: SameAt(s, t, t')
    ensures WildLists(list, t')
  {
    forall k: Key | k.slot.Wild? ensures (k in t <==> k in t') && (k in t ==> t[k] == t'[k]) {
      assert SameAt(k.slot, t, t');
    }
  }

  /** The linear list: a filter text with each subscription. */
  type WildList = seq<(string, Subscription)>

  function RetainWild(list: WildList, keep: ((string, Subscription)) -> bool): (r: WildList)
    ensures forall w :: w in r <==> w in list && keep(w)
  {
    if list == [] then []
    else
      assert list == [list[0]] + list[1..];
      (if keep(list[0]) then [list[0]] else []) + RetainWild(list[1..], keep)
  }

  function WildKey(w: (string, Subscription)): Key {
    Key(Wild(w.0), w.1.clientId)
  }

  ghost predicate OncePerKey(list: WildList) {
    forall i, j | 0 <= i < j < |list| :: WildKey(list[i]) != WildKey(list[j])
  }

  lemma {:induction false} RetainWildOnce(list: WildList, keep: ((string, Subscription)) -> bool)
    requires OncePerKey(list)
    ensures OncePerKey(RetainWild(list, keep))
  {
    if list != [] {
      RetainWildOnce(list[1..], keep);
      var rest := RetainWild(list[1..], keep);
      assert forall w <- rest :: w in list[1..];
      assert forall i | 0 <= i < |rest| :: rest[i] in rest;
    }
  }

  ghost predicate WildLists(list: WildList, table: Table) {
    && OncePerKey(list)
    && (forall w <- list :: WildKey(w) in table && table[WildKey(w)] == w.1.qos)
    && (forall k <- table :: k.slot.Wild? ==> (k.slot.filter, Subscription(k.clientId, table[k])) in list)
  }

  lemma WildAfterPut(list: WildList, table: Table, filter: string, sub: Subscription,
                     keep: ((string, Subscription)) -> bool)
    requires WildLists(list, table)
    requires forall w :: keep(w) <==> w.1.clientId != sub.clientId || w.0 != filter
    ensures WildLists(RetainWild(list, keep) + [(filter, sub)], table[Key(Wild(filter), sub.clientId) := sub.qos])
  {
    RetainWildOnce(list, keep);
    var kept := RetainWild(list, keep);
    assert forall i | 0 <= i < |kept| :: kept[i] in kept;
  }

  lemma WildAfterRetain(list: WildList, table: Table, gone: set<Key>, keep: ((string, Subscription)) -> bool)
    requires WildLists(list, table)
    requires forall w <- list :: keep(w) <==> WildKey(w) !in gone
    ensures WildLists(RetainWild(list, keep), table - gone)
  {
    RetainWildOnce(list, keep);
  }

  lemma WildAfterRemove(list: WildList, table: Table, client: string, keep: ((string, Subscription)) -> bool)
    requires WildLists(list, table)
    requires forall w :: keep(w) <==> w.1.clientId != client
    ensures WildLists(RetainWild(list, keep), table - KeysOf(table, client))
  {
    WildAfterRetain(list, table, KeysOf(table, client), keep);
  }

  lemma ListsAfterRemove(list: seq<Subscription>, slot: Slot, table: Table, client: string)
    requires Lists(list, slot, table)
    ensures Lists(Retain(list, client), slot, table - KeysOf(table, client))
  {
    ListsAfterRetain(list, slot, table, client);
    ListsElsewhere(Retain(list, client), slot, table - {Key(slot, client)}, table - KeysOf(table, client));
  }

  // ---- Delivery ----------------------------------------------------------

  /** The results are the table's entries at `keys`, in that order, each key once. */
  ghost predicate Delivers(results: seq<Subscription>, keys: seq<Key>, table: Table) {
    && |results| == |keys| && Distinct(keys)
    && forall i | 0 <= i < |keys| :: keys[i] in table && results[i] == Subscription(keys[i].clientId, table[keys[i]])
  }

  /** The entries that are delivered as one and the same subscription. */
  ghost function Delivering(keys: set<Key>, table: Table, sub: Subscription): set<Key> {
    set k | k in keys && k in table && Subscription(k.clientId, table[k]) == sub
  }

  ghost function Hits<K, V>(keys: seq<K>, m: map<K, V>, v: V): set<K> {
    set k | k in keys && k in m && m[k] == v
  }

  lemma {:induction false} CountByKey<K, V>(values: seq<V>, keys: seq<K>, m: map<K, V>, v: V)
    requires |values| == |keys| && Distinct(keys)
    requires forall i | 0 <= i < |keys| :: keys[i] in m && values[i] == m[keys[i]]
    ensures multiset(values)[v] == |Hits(keys, m, v)|
  {
    if keys != [] {
      var n := |keys| - 1;
      CountByKey(values[..n], keys[..n], m, v);
      assert values == values[..n] + [values[n]];
      assert keys == keys[..n] + [keys[n]];
      assert Hits(keys, m, v) == Hits(keys[..n], m, v) + (if values[n] == v then {keys[n]} else {});
    }
  }

  /** A subscription is delivered as often as there are entries for it. */
  lemma DeliveredCount(results: seq<Subscription>, keys: seq<Key>, table: Table, sub: Subscription)
    requires Delivers(results, keys, table)
    ensures multiset(results)[sub] == |Delivering((set k | k in keys), table, sub)|
  {
    var m := map k | k in table :: Subscription(k.clientId, table[k]);
    CountByKey(results, keys, m, sub);
    assert Delivering((set k | k in keys), table, sub) == Hits(keys, m, sub);
  }

  /** Pushes a whole list, in order. */
  method PushAll(results: seq<Subscription>, ghost keys: seq<Key>,
                 list: seq<Subscription>, ghost slot: Slot, ghost table: Table)
    returns (results': seq<Subscription>, ghost keys': seq<Key>)
    requires Delivers(results, keys, table) && Lists(list, slot, table)
    requires forall k <- keys :: k.slot != slot
    ensures results' == results + list && Delivers(results', keys', table)
    ensures forall k :: k in keys' <==> k in keys || (k in table && k.slot == slot)
  {
    results', keys' := results, keys;
    for i := 0 to |list|
      invariant results' == results + list[..i] && Delivers(results', keys', table)
      invariant forall k <- keys' :: k in keys || (k.slot == slot && Subscription(k.clientId, table[k]) in list[..i])
      invariant forall k <- keys :: k in keys'
      invariant forall j | 0 <= j < i :: Key(slot, list[j].clientId) in keys'
    {
      ghost var key := Key(slot, list[i].clientId);
      assert list[i] in list && key !in keys';
      results', keys' := results' + [list[i]], keys' + [key];
    }
    forall k | k in table && k.slot == slot ensures k in keys' {
      assert Subscription(k.clientId, table[k]) in list;
    }
  }

  /** Whether a filter with `+` levels matches a topic's levels. */
  method TopicMatchesSingleWildcard(filter: string, topic: seq<string>) returns (b: bool)
    ensures b == SingleWildcardMatches(Split(filter), topic)
  {
    var levels := Split(filter);
    if |levels| != |topic| {
      return false;
    }
    for i := 0 to |levels|
      invariant forall j | 0 <= j < i :: levels[j] == "+" || levels[j] == topic[j]
    {
      if levels[i] != "+" && levels[i] != topic[i] {
        return false;
      }
    }
    return true;
  }

  /** Matches the linear list after the trie. */
  method MatchWildcards(wild: WildList, levels: seq<string>,
                        results: seq<Subscription>, ghost keys: seq<Key>, ghost table: Table)
    returns (results': seq<Subscription>, ghost keys': seq<Key>)
    requires WildLists(wild, table) && Delivers(results, keys, table)
    requires forall k <- keys :: !k.slot.Wild?
    ensures Delivers(results', keys', table)
    ensures forall k :: k in keys' <==> k in keys || (k in table && k.slot.Wild? && SlotMatches(k.slot, levels))
  {
    results', keys' := results, keys;
    for i := 0 to |wild|
      invariant Delivers(results', keys', table)
      invariant forall k <- keys :: k in keys'
      invariant forall k <- keys' :: k in keys
                  || (SlotMatches(k.slot, levels) && exists j :: 0 <= j < i && WildKey(wild[j]) == k)
      invariant forall j | 0 <= j < i :: SlotMatches(Wild(wild[j].0), levels) ==> WildKey(wild[j]) in keys'
    {
      var b := TopicMatchesSingleWildcard(wild[i].0, levels);
      if b {
        assert wild[i] in wild && WildKey(wild[i]) !in keys';
        results', keys' := results' + [wild[i].1], keys' + [WildKey(wild[i])];
      }
    }
    forall k | k in table && k.slot.Wild? && SlotMatches(k.slot, levels) ensures k in keys' {
      var j :| 0 <= j < |wild| && wild[j] == (k.slot.filter, Subscription(k.clientId, table[k]));
    }
  }

  // ---- Deliveries and matches ----------------------------------------------

  lemma {:induction false} ImageSize<A(!new), B>(a: set<A>, f: A -> B, b: set<B>)
    requires b == (set x | x in a :: f(x)) && Apart(a, f)
    ensures |b| == |a|
    decreases |a|
  {
    if a != {} {
      var x :| x in a;
      assert b - {f(x)} == (set y | y in a - {x} :: f(y)) by {
        assert forall y <- a - {x} :: f(y) != f(x);
      }
      ImageSize(a - {x}, f, b - {f(x)});
    }
  }

  /** The subscribed pairs that a topic should be delivered to as this subscription. */
  ghost function Matching(plain: PlainIndex, topic: string, sub: Subscription): set<Pair> {
    set p | p in plain && Matches(Split(p.filter), Split(topic)) && Subscription(p.clientId, plain[p]) == sub
  }

  /** After any run over filters that do not mix `+` and `#`, each subscription is delivered once for
      each subscribed pair of its client and QoS whose filter the plain matcher accepts. */
  lemma DeliveriesAreMatches(ops: seq<Op>, filters: set<string>, topic: string, sub: Subscription)
    requires Over(ops, filters)
    requires forall f <- filters :: WellFormed(f) && !Mixed(f)
    ensures |Delivering(Reached(Run(ops), topic), Run(ops), sub)| == |Matching(PlainRun(ops), topic, sub)|
  {
    hide Matches, SlotMatches, WellFormed, Mixed, PlainRun, Run;
    RegularRouting(ops, filters, topic);
    var plain, table := PlainRun(ops), Run(ops);
    var pairs, keys := Matching(plain, topic, sub), Delivering(Reached(table, topic), table, sub);
    forall k <- keys ensures exists p :: p in pairs && KeyOf(p) == k {
      var p :| p in plain && Matches(Split(p.filter), Split(topic)) && KeyOf(p) == k;
      assert p in pairs;
    }
    assert keys == (set p | p in pairs :: KeyOf(p));
    ImageSize(pairs, KeyOf, keys);
  }
}
