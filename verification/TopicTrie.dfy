/** The broker's subscription trie, changed in place. Its ghost table is the set of filed
    entries that TopicIndex reasons about; every method says what it does to that table. */
module TopicTries {
  import opened TopicFilters
  import opened TopicIndex
  import opened SubscriptionLists

  type Path = seq<string>

  function Child(p: Path, level: string): Path {
    p + [level]
  }

  /** The trie entries at or below `depth` on the topic's own path. */
  ghost predicate OnPath(k: Key, levels: seq<string>, depth: nat) {
    k.slot == Exact(levels) || (k.slot.Multi? && depth <= |k.slot.path| && k.slot.path <= levels)
  }

  lemma OnPathStep(levels: seq<string>, depth: nat)
    requires depth <= |levels|
    ensures depth < |levels| ==> forall k: Key :: OnPath(k, levels, depth) <==>
              k.slot == Multi(levels[..depth]) || OnPath(k, levels, depth + 1)
    ensures depth == |levels| ==> forall k: Key :: OnPath(k, levels, depth) <==>
              k.slot == Multi(levels[..depth]) || k.slot == Exact(levels[..depth])
    ensures depth < |levels| ==> forall k: Key :: k.slot == Multi(levels[..depth]) ==> !OnPath(k, levels, depth + 1)
  {
    assert levels[..|levels|] == levels;
    forall k: Key | k.slot.Multi? && depth == |k.slot.path| && k.slot.path <= levels
      ensures k.slot.path == levels[..depth]
    {
    }
  }

  lemma StripTake(levels: seq<string>, i: nat)
    requires i < |levels|
    ensures var level, p := levels[i], Strip(levels[..i]);
            Strip(levels[..i + 1]) == if level == "+" || level == "#" then p else Child(p, level)
  {
    assert levels[..i + 1] == levels[..i] + [levels[i]];
    StripSnoc(levels[..i], levels[i]);
  }

  lemma StripEnds(levels: seq<string>)
    ensures Strip(levels[..0]) == [] && Strip(levels[..|levels|]) == Strip(levels)
  {
    assert levels[..|levels|] == levels;
  }

  lemma NothingDelivered(table: Table)
    ensures Delivers([], [], table)
  {
  }

  lemma OnPathIsNoWild(levels: seq<string>)
    ensures forall k: Key :: OnPath(k, levels, 0) ==> !k.slot.Wild?
  {
  }

  /** What a topic reaches: the trie entries on its path, and the matching `+` filters. */
  lemma ReachedSplits(table: Table, topic: string)
    ensures forall k: Key :: k in Reached(table, topic) <==>
              k in table && (OnPath(k, Split(topic), 0) || (k.slot.Wild? && SlotMatches(k.slot, Split(topic))))
  {
  }

  class TrieNode {
    var children: map<string, TrieNode>
    var subscriptions: seq<Subscription>
    var multiSubscriptions: seq<Subscription>
    /** The levels that lead here from the root. */
    ghost const path: Path

    constructor (ghost path: Path)
      ensures children == map[] && subscriptions == [] && multiSubscriptions == []
      ensures this.path == path
    {
      children, subscriptions, multiSubscriptions := map[], [], [];
      this.path := path;
    }
  }

  class TopicTrie {
    const root: TrieNode
    var wildcardSubscriptions: WildList
    /** Every node of the trie, by its path. */
    ghost var nodes: map<Path, TrieNode>
    ghost var table: Table

    /** The nodes form a tree whose edges are the child maps. */
    ghost predicate Shape()
      reads this, nodes.Values
    {
      && [] in nodes && nodes[[]] == root
      && (forall p <- nodes :: nodes[p].path == p)
      && (forall p, l {:trigger Child(p, l)} | p in nodes && l in nodes[p].children ::
            Child(p, l) in nodes && nodes[p].children[l] == nodes[Child(p, l)])
      && (forall p, l {:trigger Child(p, l)} | Child(p, l) in nodes ::
            p in nodes && l in nodes[p].children)
    }

    /** The lists hold exactly the table. */
    ghost predicate Filed()
      reads this, nodes.Values
    {
      && (forall p <- nodes :: Lists(nodes[p].subscriptions, Exact(p), table))
      && (forall p <- nodes :: Lists(nodes[p].multiSubscriptions, Multi(p), table))
      && WildLists(wildcardSubscriptions, table)
      && (forall k <- table :: k.slot.Wild? || k.slot.path in nodes)
    }

    ghost predicate Valid()
      reads this, nodes.Values
    {
      Shape() && Filed()
    }

    constructor ()
      ensures Valid() && table == map[] && fresh(nodes.Values)
    {
      root := new TrieNode([]);
      wildcardSubscriptions := [];
      table := map[];
      new;
      nodes := map[[] := root];
    }

    twostate predicate SameTree()
      reads this, nodes.Values
    {
      nodes == old(nodes) && forall p <- nodes :: nodes[p].children == old(nodes[p].children)
    }

    twostate lemma ShapeKept()
      requires old(Shape()) && SameTree()
      ensures Shape()
    {
    }

    // ---- Finding nodes ----

    /** The trie gained only empty nodes. */
    twostate predicate Grown()
      reads this, nodes.Values
    {
      && table == old(table) && wildcardSubscriptions == old(wildcardSubscriptions)
      && (forall p <- old(nodes) :: p in nodes && nodes[p] == old(nodes[p])
            && nodes[p].subscriptions == old(nodes[p].subscriptions)
            && nodes[p].multiSubscriptions == old(nodes[p].multiSubscriptions))
      && (forall p <- nodes :: p !in old(nodes) ==>
            nodes[p].subscriptions == [] && nodes[p].multiSubscriptions == [])
    }

    twostate lemma GrownFiled()
      requires old(Filed()) && Grown()
      ensures Filed()
    {
      forall p | p in nodes && p !in old(nodes) ensures forall k <- table :: k.slot.Wild? || k.slot.path != p {
      }
    }

    /** Walks from the root along the named levels, making the nodes that are missing. */
    method FindOrCreateNode(levels: seq<string>) returns (node: TrieNode)
      requires Shape()
      modifies this`nodes, nodes.Values`children
      ensures Shape() && Grown() && fresh(nodes.Values - old(nodes.Values))
      ensures Strip(levels) in nodes && node == nodes[Strip(levels)]
    {
      hide Strip, Shape, Child;
      RootKept();
      node := root;
      ghost var p := [];
      StripEnds(levels);
      for i := 0 to |levels|
        invariant Shape() && Grown() && fresh(nodes.Values - old(nodes.Values))
        invariant p == Strip(levels[..i]) && p in nodes && node == nodes[p]
      {
        var level := levels[i];
        StripTake(levels, i);
        if level == "+" || level == "#" {
          continue;
        }
        node := ChildOrNew(node, level, p);
        p := Child(p, level);
      }
    }

    lemma RootKept()
      requires Shape()
      ensures [] in nodes && nodes[[]] == root
    {
    }

    /** `children.entry(level).or_default()` */
    method ChildOrNew(node: TrieNode, level: string, ghost p: Path) returns (child: TrieNode)
      requires Shape() && p in nodes && node == nodes[p]
      modifies this`nodes, node`children
      ensures Shape() && Grown() && fresh(nodes.Values - old(nodes.Values))
      ensures Child(p, level) in nodes && child == nodes[Child(p, level)]
    {
      if level in node.children {
        assert Child(p, level) in nodes;
        child := node.children[level];
      } else {
        child := AddLeaf(node, level, p);
      }
    }

    /** Hangs a new node below one that has no child of that name. */
    method AddLeaf(node: TrieNode, level: string, ghost p: Path) returns (child: TrieNode)
      requires Shape() && p in nodes && node == nodes[p] && level !in node.children
      modifies this`nodes, node`children
      ensures Shape() && Grown() && fresh(nodes.Values - old(nodes.Values))
      ensures Child(p, level) in nodes && child == nodes[Child(p, level)]
    {
      ghost var q := Child(p, level);
      child := new TrieNode(q);
      node.children := node.children[level := child];
      nodes := nodes[q := child];
      assert nodes.Values <= old(nodes.Values) + {child};
      assert q[..|q| - 1] == p && q[|q| - 1] == level;
      LeafKeeps(q);
    }

    /** A leaf was hung below a node that had no child of that name. */
    twostate predicate LeafAdded(q: Path)
      reads this, nodes.Values
    {
      && q != [] && q in nodes && nodes - {q} == old(nodes)
      && var p, level, child := q[..|q| - 1], q[|q| - 1], nodes[q];
      && p in old(nodes) && level !in old(nodes[p].children)
      && child.path == q && child.children == map[] && child.subscriptions == [] && child.multiSubscriptions == []
      && table == old(table) && wildcardSubscriptions == old(wildcardSubscriptions)
      && (forall r <- old(nodes) :: r in nodes && nodes[r] == old(nodes[r]) && nodes[r].children ==
            if r == p then old(nodes[p].children)[level := child] else old(nodes[r].children))
      && (forall r <- old(nodes) :: r in nodes && nodes[r].subscriptions == old(nodes[r].subscriptions)
            && nodes[r].multiSubscriptions == old(nodes[r].multiSubscriptions))
    }

    twostate lemma LeafKeeps(q: Path)
      requires old(Shape()) && LeafAdded(q)
      ensures Shape() && Grown()
    {
      assert q == Child(q[..|q| - 1], q[|q| - 1]);
      assert forall r, l :: Child(r, l)[..|r|] == r && Child(r, l)[|r|] == l;
    }

    /** Walks from the root along the named levels, if the nodes are there. */
    method FindNode(levels: seq<string>) returns (node: TrieNode?)
      requires Valid()
      ensures node == null <==> Strip(levels) !in nodes
      ensures node != null ==> node == nodes[Strip(levels)]
    {
      hide Strip;
      var at := root;
      ghost var p := [];
      StripEnds(levels);
      for i := 0 to |levels|
        invariant p == Strip(levels[..i]) && p in nodes && at == nodes[p]
      {
        var level := levels[i];
        StripTake(levels, i);
        if level == "+" || level == "#" {
          continue;
        }
        p := Child(p, level);
        if level !in at.children {
          assert levels == levels[..i + 1] + levels[i + 1..];
          StripConcat(levels[..i + 1], levels[i + 1..]);
          NoNodeBelow(p, Strip(levels));
          return null;
        }
        at := at.children[level];
      }
      return at;
    }

    /** No node has a missing one above it. */
    lemma NoNodeBelow(p: Path, q: Path)
      requires Shape() && p !in nodes && p <= q
      ensures q !in nodes
    {
      if |p| < |q| {
        var up := q[..|q| - 1];
        NoNodeBelow(p, up);
        assert q == Child(up, q[|q| - 1]);
      } else {
        assert p == q;
      }
    }

    // ---- Changing lists ----

    /** A change to the table and to one node's list, or to the linear list, keeps the rest filed. */
    twostate lemma Refiled(slot: Slot)
      requires old(Valid()) && SameTree()
      requires forall p <- nodes :: slot == Exact(p) || nodes[p].subscriptions == old(nodes[p].subscriptions)
      requires forall p <- nodes :: slot == Multi(p) || nodes[p].multiSubscriptions == old(nodes[p].multiSubscriptions)
      requires forall s: Slot | s != slot :: SameAt(s, old(table), table)
      requires match slot
               case Exact(p) => p in nodes && Lists(nodes[p].subscriptions, slot, table)
               case Multi(p) => p in nodes && Lists(nodes[p].multiSubscriptions, slot, table)
               case Wild(_) => WildLists(wildcardSubscriptions, table)
      requires slot.Wild? || wildcardSubscriptions == old(wildcardSubscriptions)
      ensures Valid()
    {
      forall p | p in nodes
        ensures Lists(nodes[p].subscriptions, Exact(p), table) && Lists(nodes[p].multiSubscriptions, Multi(p), table)
      {
        if slot != Exact(p) { ListsElsewhere(nodes[p].subscriptions, Exact(p), old(table), table); }
        if slot != Multi(p) { ListsElsewhere(nodes[p].multiSubscriptions, Multi(p), old(table), table); }
      }
      if !slot.Wild? { WildListsElsewhere(wildcardSubscriptions, old(table), table); }
      forall k | k in table && !k.slot.Wild? ensures k.slot.path in nodes {
        if k.slot != slot { assert SameAt(k.slot, old(table), table); }
      }
    }

    method Subscribe(clientId: string, filter: string, qos: QoS)
      requires Valid()
      modifies this, nodes.Values
      ensures Valid() && fresh(nodes.Values - old(nodes.Values))
      ensures table == Apply(old(table), Op.Subscribe(clientId, filter, qos))
    {
      hide Lists, WildLists;
      var levels := Split(filter);
      var sub := Subscription(clientId, qos);
      if EndsWithHash(filter) && !(|filter| >= 2 && filter[|filter| - 2] == '/') && |levels| == 1 && levels[0] == "#" {
        PutMulti(root, [], sub);
      } else if EndsWithHash(filter) {
        var node := FindOrCreateNode(levels[..|levels| - 1]);
        GrownFiled();
        PutMulti(node, Strip(levels[..|levels| - 1]), sub);
      } else if "+" in levels {
        PutWild(filter, sub);
      } else {
        var node := FindOrCreateNode(levels);
        GrownFiled();
        PutExact(node, Strip(levels), sub);
      }
    }

    /** `retain` then `push` on a node's own list. */
    method PutExact(node: TrieNode, ghost p: Path, sub: Subscription)
      requires Valid() && p in nodes && node == nodes[p]
      modifies this`table, node`subscriptions
      ensures Valid() && table == old(table)[Key(Exact(p), sub.clientId) := sub.qos]
    {
      hide Lists, WildLists, SameAt;
      ListsAfterPut(node.subscriptions, Exact(p), table, sub);
      node.subscriptions := Retain(node.subscriptions, sub.clientId) + [sub];
      table := table[Key(Exact(p), sub.clientId) := sub.qos];
      OtherSlots(old(table), table, Key(Exact(p), sub.clientId));
      Refiled(Exact(p));
    }

    /** `retain` then `push` on a node's `#` list. */
    method PutMulti(node: TrieNode, ghost p: Path, sub: Subscription)
      requires Valid() && p in nodes && node == nodes[p]
      modifies this`table, node`multiSubscriptions
      ensures Valid() && table == old(table)[Key(Multi(p), sub.clientId) := sub.qos]
    {
      hide Lists, WildLists, SameAt;
      ListsAfterPut(node.multiSubscriptions, Multi(p), table, sub);
      node.multiSubscriptions := Retain(node.multiSubscriptions, sub.clientId) + [sub];
      table := table[Key(Multi(p), sub.clientId) := sub.qos];
      OtherSlots(old(table), table, Key(Multi(p), sub.clientId));
      Refiled(Multi(p));
    }

    /** `retain` then `push` on the linear list. */
    method PutWild(filter: string, sub: Subscription)
      requires Valid()
      modifies this`table, this`wildcardSubscriptions
      ensures Valid() && table == old(table)[Key(Wild(filter), sub.clientId) := sub.qos]
    {
      hide Lists, WildLists, SameAt;
      var keep := (w: (string, Subscription)) => w.1.clientId != sub.clientId || w.0 != filter;
      WildAfterPut(wildcardSubscriptions, table, filter, sub, keep);
      wildcardSubscriptions := RetainWild(wildcardSubscriptions, keep) + [(filter, sub)];
      table := table[Key(Wild(filter), sub.clientId) := sub.qos];
      OtherSlots(old(table), table, Key(Wild(filter), sub.clientId));
      Refiled(Wild(filter));
    }

    method Unsubscribe(clientId: string, filter: string)
      requires Valid()
      modifies this`table, this`wildcardSubscriptions
      modifies nodes.Values`subscriptions, nodes.Values`multiSubscriptions
      ensures Valid() && table == Apply(old(table), Op.Unsubscribe(clientId, filter))
    {
      hide Lists, WildLists;
      var levels := Split(filter);
      ghost var key := Key(SlotOf(filter), clientId);
      if EndsWithHash(filter) {
        var parent := if |levels| == 1 && levels[0] == "#" then [] else levels[..|levels| - 1];
        assert key.slot == Multi(Strip(parent));
        var node := FindNode(parent);
        if node != null {
          DropMulti(node, Strip(parent), clientId);
        } else {
          assert table - {key} == table;
        }
      } else if "+" in levels {
        DropWild(filter, clientId);
      } else {
        var node := FindNode(levels);
        if node != null {
          DropExact(node, Strip(levels), clientId);
        } else {
          assert table - {key} == table;
        }
      }
    }

    /** `retain` on a node's own list. */
    method DropExact(node: TrieNode, ghost p: Path, clientId: string)
      requires Valid() && p in nodes && node == nodes[p]
      modifies this`table, node`subscriptions
      ensures Valid() && table == old(table) - {Key(Exact(p), clientId)}
    {
      hide Lists, WildLists, SameAt;
      ListsAfterRetain(node.subscriptions, Exact(p), table, clientId);
      node.subscriptions := Retain(node.subscriptions, clientId);
      table := table - {Key(Exact(p), clientId)};
      OtherSlots(old(table), table, Key(Exact(p), clientId));
      Refiled(Exact(p));
    }

    /** `retain` on a node's `#` list. */
    method DropMulti(node: TrieNode, ghost p: Path, clientId: string)
      requires Valid() && p in nodes && node == nodes[p]
      modifies this`table, node`multiSubscriptions
      ensures Valid() && table == old(table) - {Key(Multi(p), clientId)}
    {
      hide Lists, WildLists, SameAt;
      ListsAfterRetain(node.multiSubscriptions, Multi(p), table, clientId);
      node.multiSubscriptions := Retain(node.multiSubscriptions, clientId);
      table := table - {Key(Multi(p), clientId)};
      OtherSlots(old(table), table, Key(Multi(p), clientId));
      Refiled(Multi(p));
    }

    /** `retain` on the linear list. */
    method DropWild(filter: string, clientId: string)
      requires Valid()
      modifies this`table, this`wildcardSubscriptions
      ensures Valid() && table == old(table) - {Key(Wild(filter), clientId)}
    {
      hide Lists, WildLists, SameAt;
      var keep := (w: (string, Subscription)) => w.1.clientId != clientId || w.0 != filter;
      ghost var gone := {Key(Wild(filter), clientId)};
      WildAfterRetain(wildcardSubscriptions, table, gone, keep);
      wildcardSubscriptions := RetainWild(wildcardSubscriptions, keep);
      table := table - gone;
      OtherSlots(old(table), table, Key(Wild(filter), clientId));
      Refiled(Wild(filter));
    }

    // ---- Removing a client ----

    /** Takes every entry of one client out of the nodes and the linear list. */
    method RemoveSubscriptionsForClient(clientId: string)
      requires Valid()
      modifies this`table, this`wildcardSubscriptions, nodes.Values`subscriptions, nodes.Values`multiSubscriptions
      ensures Valid() && table == Apply(old(table), Op.RemoveClient(clientId))
    {
      hide Lists, WildLists, Shape, Retain, RetainWild, OncePerKey, KeysOf;
      RemoveFromNodes(clientId);
      var keep := (w: (string, Subscription)) => w.1.clientId != clientId;
      WildAfterRemove(wildcardSubscriptions, table, clientId, keep);
      wildcardSubscriptions := RetainWild(wildcardSubscriptions, keep);
      table := table - KeysOf(table, clientId);
      ClearedFiled(clientId);
    }

    /** Clears the client from the lists of every node. */
    method RemoveFromNodes(clientId: string)
      requires Valid()
      modifies nodes.Values`subscriptions, nodes.Values`multiSubscriptions
      ensures SameTree() && forall p <- nodes :: Cleared(p, clientId)
    {
      hide Lists, WildLists;
      RemoveRecursive(root, [], clientId);
      forall p <- nodes ensures Cleared(p, clientId) {
        assert p in Below([]);
      }
    }

    twostate lemma ClearedFiled(clientId: string)
      requires old(Valid()) && SameTree()
      requires forall p <- nodes :: Cleared(p, clientId)
      requires table == old(table) - KeysOf(old(table), clientId)
      requires WildLists(wildcardSubscriptions, table)
      ensures Valid()
    {
      forall p | p in nodes
        ensures Lists(nodes[p].subscriptions, Exact(p), table) && Lists(nodes[p].multiSubscriptions, Multi(p), table)
      {
        assert Cleared(p, clientId);
        ListsAfterRemove(old(nodes[p].subscriptions), Exact(p), old(table), clientId);
        ListsAfterRemove(old(nodes[p].multiSubscriptions), Multi(p), old(table), clientId);
      }
    }

    twostate predicate Cleared(q: Path, clientId: string)
      requires q in nodes && q in old(nodes)
      reads this, nodes.Values
    {
      && nodes[q].subscriptions == Retain(old(nodes[q].subscriptions), clientId)
      && nodes[q].multiSubscriptions == Retain(old(nodes[q].multiSubscriptions), clientId)
    }

    twostate predicate Untouched(q: Path)
      requires q in nodes && q in old(nodes)
      reads this, nodes.Values
    {
      && nodes[q].subscriptions == old(nodes[q].subscriptions)
      && nodes[q].multiSubscriptions == old(nodes[q].multiSubscriptions)
    }

    /** The nodes at and below a path. */
    ghost function Below(p: Path): set<Path>
      reads this
    {
      set q | q in nodes && p <= q
    }

    method RemoveRecursive(node: TrieNode, ghost p: Path, clientId: string)
      requires Shape() && p in nodes && node == nodes[p]
      modifies nodes.Values`subscriptions, nodes.Values`multiSubscriptions
      ensures Shape()
      ensures forall q <- nodes :: if q in Below(p) then Cleared(q, clientId) else Untouched(q)
      decreases Below(p), 1
    {
      node.subscriptions := Retain(node.subscriptions, clientId);
      node.multiSubscriptions := Retain(node.multiSubscriptions, clientId);
      ShapeKept();
      RemoveInChildren(node, p, clientId);
    }

    /** The loop over a node's children. */
    method RemoveInChildren(node: TrieNode, ghost p: Path, clientId: string)
      requires Shape() && p in nodes && node == nodes[p]
      modifies nodes.Values`subscriptions, nodes.Values`multiSubscriptions
      ensures Shape()
      ensures forall q <- nodes :: if q in Below(p) && q != p then Cleared(q, clientId) else Untouched(q)
      decreases Below(p), 0
    {
      BelowChildren(p);
      var todo := node.children.Keys;
      ghost var done := {};
      while todo != {}
        invariant Shape() && todo <= node.children.Keys
        invariant forall q <- nodes :: if q in done then Cleared(q, clientId) else Untouched(q)
        invariant forall q <- Below(p) :: q in done || q == p || (|p| < |q| && q[|p|] in todo)
        invariant done <= Below(p) - {p} && forall q <- done :: |p| < |q| && q[|p|] !in todo
        decreases todo
      {
        var level :| level in todo;
        todo := todo - {level};
        ghost var c := Child(p, level);
        BelowChild(p, level);
        RemoveRecursive(node.children[level], c, clientId);
        done := done + Below(c);
      }
    }

    /** Below a node come its children's own trees. */
    lemma BelowChildren(p: Path)
      requires Shape() && p in nodes
      ensures forall q <- Below(p) :: q == p || (|p| < |q| && q[|p|] in nodes[p].children)
    {
      forall q | q in Below(p) && q != p ensures |p| < |q| && q[|p|] in nodes[p].children {
        var c := Child(p, q[|p|]);
        assert c <= q;
        if c !in nodes { NoNodeBelow(c, q); }
      }
    }

    lemma BelowChild(p: Path, level: string)
      requires p in nodes
      ensures Below(Child(p, level)) < Below(p) && p !in Below(Child(p, level))
      ensures forall q <- Below(p) :: q in Below(Child(p, level)) <==> |p| < |q| && q[|p|] == level
    {
      var c := Child(p, level);
      assert p in Below(p) && p !in Below(c);
      forall q | q in Below(p) && |p| < |q| && q[|p|] == level ensures c <= q {
        assert q[..|p| + 1] == c;
      }
    }

    /** Any one of the calls. */
    method Perform(op: Op)
      requires Valid()
      modifies this, nodes.Values
      ensures Valid() && fresh(nodes.Values - old(nodes.Values)) && table == Apply(old(table), op)
    {
      hide Shape, Filed, Apply;
      match op
      case Subscribe(client, filter, qos) => Subscribe(client, filter, qos);
      case Unsubscribe(client, filter) => Unsubscribe(client, filter);
      case RemoveClient(client) => RemoveSubscriptionsForClient(client);
    }

    // ---- Matching ----

    /** Looks up a published topic: each entry it reaches gives one result. */
    method MatchTopic(topic: string) returns (results: seq<Subscription>, ghost keys: seq<Key>)
      requires Valid()
      ensures Delivers(results, keys, table)
      ensures forall k :: k in keys <==> k in Reached(table, topic)
      ensures forall sub :: multiset(results)[sub] == |Delivering(Reached(table, topic), table, sub)|
    {
      hide Delivers, Delivering, OnPath, SlotMatches, Reached, Lists, WildLists, Split;
      var levels := Split(topic);
      assert levels[..0] == [] && Delivers([], [], table) by { NothingDelivered(table); }
      results, keys := MatchRecursive(root, levels, 0, [], []);
      OnPathIsNoWild(levels);
      results, keys := MatchWildcards(wildcardSubscriptions, levels, results, keys, table);
      ReachedSplits(table, topic);
      assert (set k | k in keys) == Reached(table, topic);
      forall sub ensures multiset(results)[sub] == |Delivering(Reached(table, topic), table, sub)| {
        DeliveredCount(results, keys, table, sub);
      }
    }

    method MatchRecursive(node: TrieNode, levels: seq<string>, depth: nat,
                          results: seq<Subscription>, ghost keys: seq<Key>)
      returns (results': seq<Subscription>, ghost keys': seq<Key>)
      requires Valid() && depth <= |levels| && levels[..depth] in nodes && node == nodes[levels[..depth]]
      requires Delivers(results, keys, table)
      requires forall k <- keys :: !OnPath(k, levels, depth)
      ensures Delivers(results', keys', table)
      ensures forall k :: k in keys' <==> k in keys || (k in table && OnPath(k, levels, depth))
      decreases |levels| - depth
    {
      hide WildLists, OnPath;
      ghost var p := levels[..depth];
      OnPathStep(levels, depth);
      results', keys' := PushAll(results, keys, node.multiSubscriptions, Multi(p), table);
      if depth >= |levels| {
        results', keys' := PushAll(results', keys', node.subscriptions, Exact(p), table);
        return;
      }
      assert levels[..depth + 1] == Child(p, levels[depth]);
      if levels[depth] in node.children {
        results', keys' := MatchRecursive(node.children[levels[depth]], levels, depth + 1, results', keys');
      } else {
        NothingBelow(levels, depth + 1);
      }
    }

    /** A missing node on the topic's path ends the search. */
    lemma NothingBelow(levels: seq<string>, depth: nat)
      requires Valid() && depth <= |levels| && levels[..depth] !in nodes
      ensures forall k <- table :: !OnPath(k, levels, depth)
    {
      forall k | k in table ensures !OnPath(k, levels, depth) {
        if OnPath(k, levels, depth) {
          NoNodeBelow(levels[..depth], k.slot.path);
        }
      }
    }
  }

  // ---- Runs -----------------------------------------------------------------

  /** Makes the calls one after the other on a new trie. */
  method Replay(ops: seq<Op>) returns (trie: TopicTrie)
    ensures fresh(trie) && fresh(trie.nodes.Values) && trie.Valid() && trie.table == Run(ops)
  {
    hide TopicTrie.Valid, Apply;
    trie := new TopicTrie();
    for i := 0 to |ops|
      invariant fresh(trie) && fresh(trie.nodes.Values)
      invariant trie.Valid() && trie.table == Run(ops[..i])
    {
      assert ops[..i + 1][..i] == ops[..i];
      trie.Perform(ops[i]);
    }
    assert ops[..|ops|] == ops;
  }

  /** No filter is malformed or mixes `+` and `#`. */
  ghost predicate Regular(ops: seq<Op>) {
    forall op <- ops :: op.RemoveClient? || (WellFormed(op.filter) && !Mixed(op.filter))
  }

  /** After any calls with such filters, publishing to any topic delivers each subscription once for
      each pair that is subscribed and whose filter the plain matcher accepts. */
  method Publish(ops: seq<Op>, topic: string) returns (results: seq<Subscription>)
    ensures Regular(ops) ==> forall sub :: multiset(results)[sub] == |Matching(PlainRun(ops), topic, sub)|
  {
    hide Matching, Delivering, WellFormed, Mixed, Reached, Run, PlainRun, Delivers;
    var trie := Replay(ops);
    ghost var keys;
    results, keys := trie.MatchTopic(topic);
    if Regular(ops) {
      ghost var filters := set op | op in ops && !op.RemoveClient? :: op.filter;
      forall sub ensures multiset(results)[sub] == |Matching(PlainRun(ops), topic, sub)| {
        DeliveriesAreMatches(ops, filters, topic, sub);
      }
    }
  }

  /** For example, a subscription of `a/+` gets what is published on `a/b`, and not what is on `a/b/c`. */
  method PublishExample(client: string, qos: QoS) returns (near: seq<Subscription>, far: seq<Subscription>)
    ensures near == [Subscription(client, qos)] && far == []
  {
    var ops := [Op.Subscribe(client, "a/+", qos)];
    ExampleRegular(client, qos);
    ExampleMatches(client, qos);
    near := Publish(ops, "a/b");
    far := Publish(ops, "a/b/c");
    OnlyElement(near, Subscription(client, qos));
    NoElement(far);
  }

  lemma ExampleRegular(client: string, qos: QoS)
    ensures Regular([Op.Subscribe(client, "a/+", qos)])
    ensures PlainRun([Op.Subscribe(client, "a/+", qos)]) == map[Pair(client, "a/+") := qos]
  {
    var levels := ["a", "+"];
    assert Join(["a", "+"]) == "a/+" by { assert levels[1..] == ["+"]; }
    WellFormedJoin(levels);
    MixedJoin(levels);
    assert "#" !in levels;
    var ops := [Op.Subscribe(client, "a/+", qos)];
    assert ops[..0] == [] && PlainRun([]) == map[];
  }

  lemma ExampleMatches(client: string, qos: QoS)
    ensures forall sub ::
              Matching(map[Pair(client, "a/+") := qos], "a/b", sub)
              == if sub == Subscription(client, qos) then {Pair(client, "a/+")} else {}
    ensures forall sub :: Matching(map[Pair(client, "a/+") := qos], "a/b/c", sub) == {}
  {
    ExampleLevels();
    hide Split;
    assert Matches(["a", "+"], ["a", "b"]) && !Matches(["a", "+"], ["a", "b", "c"]) by {
      assert ["a", "+"][1..] == ["+"] && ["a", "b"][1..] == ["b"] && ["a", "b", "c"][1..] == ["b", "c"];
      assert ["+"][1..] == [] && ["b"][1..] == [] && ["b", "c"][1..] == ["c"];
    }
  }

  lemma ExampleLevels()
    ensures Split("a/+") == ["a", "+"] && Split("a/b") == ["a", "b"] && Split("a/b/c") == ["a", "b", "c"]
  {
    assert ["a", "+"][1..] == ["+"] && ["a", "b"][1..] == ["b"] && ["a", "b", "c"][1..] == ["b", "c"]
             && ["b", "c"][1..] == ["c"];
    assert Join(["a", "+"]) == "a/+" && Join(["a", "b"]) == "a/b" && Join(["b", "c"]) == "b/c"
             && Join(["a", "b", "c"]) == "a/b/c";
    SplitJoin(["a", "+"]);
    SplitJoin(["a", "b"]);
    SplitJoin(["a", "b", "c"]);
  }

  lemma HeldAt(s: seq<Subscription>, i: nat)
    requires i < |s|
    ensures multiset(s)[s[i]] >= 1
  {
    assert s[i] in s;
  }

  lemma HeldTwice(s: seq<Subscription>)
    requires |s| > 1 && s[0] == s[1]
    ensures multiset(s)[s[0]] >= 2
  {
    assert s == [s[0], s[1]] + s[2..];
  }

  lemma OnlyElement(s: seq<Subscription>, x: Subscription)
    requires forall y :: multiset(s)[y] == if y == x then 1 else 0
    ensures s == [x]
  {
    forall i | 0 <= i < |s| ensures s[i] == x {
      HeldAt(s, i);
    }
    assert s != [] by { assert multiset(s)[x] == 1; }
    if |s| > 1 {
      HeldTwice(s);
    }
  }

  lemma NoElement(s: seq<Subscription>)
    requires forall y :: multiset(s)[y] == 0
    ensures s == []
  {
    if s != [] {
      HeldAt(s, 0);
    }
  }
}
