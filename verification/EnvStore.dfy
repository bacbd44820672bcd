/** Environment variables of flows and groups: lookup through parents, and the loader that sorts
    references so that declaration order does not matter. */
module EnvStores {
  import opened Options
  import opened Sequences
  import opened GraphPaths
  import opened Graphs
  import opened TopologicalSorters
  import opened Text

  /** A store and the stores around it. A parent that is gone counts as none. */
  datatype RedEnvs<V> = RedEnvs(envs: map<string, V>, parent: Option<RedEnvs<V>>)

  function GetRawEnv<V>(store: RedEnvs<V>, key: string): Option<V> {
    if key in store.envs then Some(store.envs[key])
    else if store.parent.Some? then GetRawEnv(store.parent.value, key)
    else None
  }

  /** The stores from one outwards, each the parent of the one before, to one without a parent. */
  ghost predicate Outwards<V>(stores: seq<RedEnvs<V>>, store: RedEnvs<V>) {
    && stores != [] && stores[0] == store
    && (forall i | 0 < i < |stores| :: stores[i - 1].parent == Some(stores[i]))
    && stores[|stores| - 1].parent == None
  }

  /** The first of the stores that has the variable. */
  ghost predicate FirstHolder<V>(stores: seq<RedEnvs<V>>, key: string, i: nat) {
    i < |stores| && key in stores[i].envs && forall j | 0 <= j < i :: key !in stores[j].envs
  }

  lemma {:induction false} OutwardsExists<V>(store: RedEnvs<V>) returns (stores: seq<RedEnvs<V>>)
    ensures Outwards(stores, store)
  {
    if store.parent.None? {
      stores := [store];
    } else {
      var rest := OutwardsExists(store.parent.value);
      stores := [store] + rest;
    }
  }

  /** A lookup gives the value of the first store that has the variable, */
  lemma {:induction false} LookupIsFirst<V>(stores: seq<RedEnvs<V>>, store: RedEnvs<V>, key: string, i: nat)
    requires Outwards(stores, store) && FirstHolder(stores, key, i)
    ensures GetRawEnv(store, key) == Some(stores[i].envs[key])
  {
    if i > 0 {
      assert key !in stores[0].envs && stores[1 - 1].parent == Some(stores[1]);
      LookupIsFirst(stores[1..], stores[1], key, i - 1);
    }
  }

  /** and none exactly when no store has it. */
  lemma {:induction false} LookupNoneIff<V>(stores: seq<RedEnvs<V>>, store: RedEnvs<V>, key: string)
    requires Outwards(stores, store)
    ensures GetRawEnv(store, key) == None <==> forall s <- stores :: key !in s.envs
  {
    assert stores == [stores[0]] + stores[1..];
    if |stores| > 1 {
      assert stores[1 - 1].parent == Some(stores[1]);
      LookupNoneIff(stores[1..], stores[1], key);
    }
  }

  /** An `env` entry names another variable; any other type is a literal. */
  datatype Kind = Env | Literal(tag: string)

  datatype EnvEntry = EnvEntry(name: string, value: string, kind: Kind)

  // ---- Duplicates ---------------------------------------------------------

  ghost predicate NameAfter(entries: seq<EnvEntry>, i: nat)
    requires i < |entries|
  {
    exists j :: i < j < |entries| && entries[j].name == entries[i].name
  }

  function KeepLast(entries: seq<EnvEntry>): seq<EnvEntry> {
    if entries == [] then []
    else
      var rest := KeepLast(entries[1..]);
      if exists e <- entries[1..] :: e.name == entries[0].name then rest else [entries[0]] + rest
  }

  ghost predicate DistinctNames(entries: seq<EnvEntry>) {
    forall i, j | 0 <= i < j < |entries| :: entries[i].name != entries[j].name
  }

  /** Names stay, each once. */
  lemma {:induction false} KeepLastNames(entries: seq<EnvEntry>)
    ensures DistinctNames(KeepLast(entries)) && Names(KeepLast(entries)) == Names(entries)
  {
    if entries != [] {
      KeepLastNames(entries[1..]);
      var rest, first := KeepLast(entries[1..]), entries[0];
      NamesCons(first, entries[1..]);
      NamesCons(first, rest);
      assert [first] + entries[1..] == entries;
      if first.name !in Names(entries[1..]) {
        assert forall i | 0 <= i < |rest| :: rest[i].name in Names(rest);
      }
    }
  }

  lemma NamesCons(first: EnvEntry, rest: seq<EnvEntry>)
    ensures Names([first] + rest) == Names(rest) + {first.name}
  {
    assert forall e :: e in [first] + rest <==> e == first || e in rest;
  }

  /** What is kept is each name's last entry. */
  lemma {:induction false} KeepLastIsLast(entries: seq<EnvEntry>, e: EnvEntry)
    ensures e in KeepLast(entries) <==> exists i :: 0 <= i < |entries| && entries[i] == e && !NameAfter(entries, i)
  {
    if entries != [] {
      var rest, first := entries[1..], entries[0];
      KeepLastIsLast(rest, e);
      forall i | 0 <= i < |rest| ensures NameAfter(rest, i) <==> NameAfter(entries, i + 1) {
        if NameAfter(entries, i + 1) {
          var j :| i + 1 < j < |entries| && entries[j].name == entries[i + 1].name;
          assert rest[j - 1].name == rest[i].name;
        }
        if NameAfter(rest, i) {
          var j :| i < j < |rest| && rest[j].name == rest[i].name;
          assert entries[j + 1].name == entries[i + 1].name;
        }
      }
      assert NameAfter(entries, 0) <==> exists k <- rest :: k.name == first.name by {
        if k :| k in rest && k.name == first.name {
          var j :| 0 <= j < |rest| && rest[j] == k;
          assert entries[j + 1].name == entries[0].name;
        }
        if NameAfter(entries, 0) {
          var j :| 0 < j < |entries| && entries[j].name == entries[0].name;
          assert rest[j - 1] in rest;
        }
      }
      if e in KeepLast(rest) {
        var i :| 0 <= i < |rest| && rest[i] == e && !NameAfter(rest, i);
        assert entries[i + 1] == e && !NameAfter(entries, i + 1);
      }
      if i :| 0 <= i < |entries| && entries[i] == e && !NameAfter(entries, i) {
        if i > 0 {
          assert rest[i - 1] == e && !NameAfter(rest, i - 1);
        }
      }
    }
  }

  // ---- What a loaded map must satisfy -------------------------------------

  ghost function Names(entries: seq<EnvEntry>): set<string> {
    set e | e in entries :: e.name
  }

  /** What a variable stands for, given a map of this store's own values. */
  function Found<V>(envs: map<string, V>, parent: Option<RedEnvs<V>>, key: string): Option<V> {
    GetRawEnv(RedEnvs(envs, parent), key)
  }

  /** The references between variables, without those to oneself. */
  function References(entries: seq<EnvEntry>): Adjacency<string, ()> {
    n => map t | t in Targets(entries, n) :: ()
  }

  function Targets(entries: seq<EnvEntry>, name: string): set<string> {
    set e | e in entries && e.kind.Env? && e.name == name :: e.value
  }

  /** An entry has the value its text stands for: a literal's own value; the final value of the
      variable it refers to; for a self-reference, what the name meant before. */
  ghost predicate Settled<V>(e: EnvEntry, before: map<string, V>, parent: Option<RedEnvs<V>>,
                             literal: (string, Kind) -> Option<V>, after: map<string, V>) {
    var v := if !e.kind.Env? then literal(e.value, e.kind)
             else if e.value == e.name then Found(before, parent, e.name)
             else Found(after, parent, e.value);
    if v.Some? then e.name in after && after[e.name] == v.value
    else SameAt(before, after, e.name)
  }

  ghost predicate SameAt<V>(a: map<string, V>, b: map<string, V>, key: string) {
    (key in a <==> key in b) && (key in a ==> a[key] == b[key])
  }

  /** Every entry is settled and nothing else changed. */
  ghost predicate Solves<V>(entries: seq<EnvEntry>, before: map<string, V>, parent: Option<RedEnvs<V>>,
                            literal: (string, Kind) -> Option<V>, after: map<string, V>) {
    && (forall e <- entries :: Settled(e, before, parent, literal, after))
    && (forall k | k !in Names(entries) :: SameAt(before, after, k))
  }

  /** References without cycles, other than self-references, leave one solution. */
  lemma SolutionUnique<V>(entries: seq<EnvEntry>, before: map<string, V>, parent: Option<RedEnvs<V>>,
                          literal: (string, Kind) -> Option<V>, a: map<string, V>, b: map<string, V>)
    requires AcyclicButLoops(References(entries))
    requires Solves(entries, before, parent, literal, a) && Solves(entries, before, parent, literal, b)
    ensures a == b
  {
    var refs := References(entries);
    var differ := set k | k in a.Keys + b.Keys && !SameAt(a, b, k);
    if differ != {} {
      forall k | k in differ ensures HasNext(Proper(refs), differ, k) {
        assert k in Names(entries);
        var e :| e in entries && e.name == k;
        assert Settled(e, before, parent, literal, a) && Settled(e, before, parent, literal, b);
        assert e.value in Targets(entries, k);
        assert Edge(Proper(refs), k, e.value);
      }
      NoDescent(refs, differ);
    } else {
      forall k | k in a.Keys + b.Keys ensures SameAt(a, b, k) {
        assert k !in differ;
      }
    }
  }

  function Proper(refs: Adjacency<string, ()>): Adjacency<string, ()> {
    n => refs(n) - {n}
  }

  /** A finite set that every member leaves for another member has a cycle through two. */
  lemma NoDescent(refs: Adjacency<string, ()>, all: set<string>)
    requires all != {} && forall k {:trigger HasNext(Proper(refs), all, k)} | k in all :: HasNext(Proper(refs), all, k)
    ensures !AcyclicButLoops(refs)
  {
    var start :| start in all;
    var u := SuccessorsMakeCycle(Proper(refs), all, [start]);
    var v :| Edge(Proper(refs), u, v) && Reach(Proper(refs), v, u);
    var p :| PathFromTo(Proper(refs), p, v, u);
    forall i | 0 <= i < |p| - 1 ensures Edge(refs, p[i], p[i + 1]) {
      assert Edge(Proper(refs), p[i], p[i + 1]);
    }
    assert PathFromTo(refs, p, v, u);
    assert Edge(refs, u, v) && u != v && Reach(refs, v, u);
  }

  // ---- The loader ---------------------------------------------------------

  /** A reference that is a variable's name and nothing else. */
  predicate Plain(value: string) {
    Trim(value) == value && !Contains(value, "${")
  }

  /** Turning all edges round turns paths round, */
  lemma ReversedReach(g: Adjacency<string, ()>, h: Adjacency<string, ()>, u: string, v: string)
    requires forall a, b :: Edge(g, a, b) ==> Edge(h, b, a)
    requires Reach(g, u, v)
    ensures Reach(h, v, u)
  {
    var p :| PathFromTo(g, p, u, v);
    var q := Reversed(p);
    forall i | 0 <= i < |q| - 1 ensures Edge(h, q[i], q[i + 1]) {
      var k := |p| - 2 - i;
      assert Edge(g, p[k], p[k + 1]);
    }
    assert PathFromTo(h, q, v, u);
  }

  /** and so keeps cycles. */
  lemma ReversedAcyclic(g: Adjacency<string, ()>, h: Adjacency<string, ()>)
    requires forall u, v :: Edge(g, u, v) ==> Edge(h, v, u)
    requires AcyclicButLoops(h)
    ensures AcyclicButLoops(g)
  {
    forall u, v | Edge(g, u, v) && u != v ensures Reach(g, v, u) ==> Reach(h, u, v) {
      if Reach(g, v, u) { ReversedReach(g, h, v, u); }
    }
  }

  /** Each listed name comes after the variable it refers to. */
  ghost predicate Ordered(entries: seq<EnvEntry>, order: seq<string>) {
    forall i, e | 0 <= i < |order| && e in entries && e.kind.Env? && e.name == order[i] && e.value != e.name ::
      e.value in order[..i]
  }

  /** Sorts the names so that references come first, if they can. */
  method SortNames(entries: seq<EnvEntry>) returns (order: seq<string>)
    ensures Distinct(order) && Names(entries) <= Elems(order)
    ensures AcyclicButLoops(References(entries)) ==> Ordered(entries, order)
  {
    var topo := new TopologicalSorter();
    for i := 0 to |entries|
      invariant fresh(topo.graph) && topo.Valid() && Names(entries[..i]) <= topo.Vertices()
      invariant forall a, b :: topo.DependsOn(a, b) <==> b in Targets(entries[..i], a)
      invariant forall e <- entries[..i] :: e.kind.Env? ==> e.value in topo.Vertices()
    {
      var entry := entries[i];
      assert entries[..i + 1] == entries[..i] + [entry];
      topo.AddVertex(entry.name);
      if entry.kind == Env {
        topo.AddDep(entry.name, entry.value);
      }
    }
    assert entries[..|entries|] == entries;
    order := topo.DependencySort();
    if AcyclicButLoops(References(entries)) {
      ghost var g := OutOf(topo.graph.nodes);
      forall u, v | Edge(g, u, v) ensures Edge(References(entries), v, u) {
        assert topo.DependsOn(v, u);
      }
      ReversedAcyclic(g, References(entries));
      forall i, e | 0 <= i < |order| && e in entries && e.kind.Env? && e.name == order[i] && e.value != e.name
        ensures e.value in order[..i]
      {
        assert e.value in Targets(entries, e.name) && e.value in Elems(order);
        var j :| 0 <= j < |order| && order[j] == e.value;
        assert topo.DependsOn(order[i], order[j]);
      }
    }
  }

  class RedEnvStoreBuilder<V(==, !new)> {
    var envs: map<string, V>
    const parent: Option<RedEnvs<V>>

    constructor (parent: Option<RedEnvs<V>>)
      ensures envs == map[] && this.parent == parent
    {
      this.parent, envs := parent, map[];
    }

    function GetExisted(key: string): Option<V>
      reads this
    {
      if key in envs then Some(envs[key])
      else if parent.Some? then GetRawEnv(parent.value, key)
      else None
    }

    /** The builder's own variable first, then the first of the stores around it. */
    lemma ExistedIs(key: string)
      ensures key in envs ==> GetExisted(key) == Some(envs[key])
      ensures key !in envs && parent.None? ==> GetExisted(key) == None
      ensures key !in envs && parent.Some? ==>
                forall stores: seq<RedEnvs<V>>, i: nat | Outwards(stores, parent.value)
                    && FirstHolder(stores, key, i) ::
                  GetExisted(key) == Some(stores[i].envs[key])
      ensures key !in envs && parent.Some? ==>
                forall stores: seq<RedEnvs<V>> | Outwards(stores, parent.value) :: GetExisted(key) == None <==>
                    forall s <- stores :: key !in s.envs
    {
      if parent.Some? {
        forall stores: seq<RedEnvs<V>>, i: nat | Outwards(stores, parent.value) && FirstHolder(stores, key, i)
          ensures GetRawEnv(parent.value, key) == Some(stores[i].envs[key])
        {
          LookupIsFirst(stores, parent.value, key, i);
        }
        forall stores: seq<RedEnvs<V>> | Outwards(stores, parent.value)
          ensures GetRawEnv(parent.value, key) == None <==> forall s <- stores :: key !in s.envs
        {
          LookupNoneIff(stores, parent.value, key);
        }
      }
    }

    /** `literal` reads values that are not references; `interpolate` fills in text around `${}`. */
    function Evaluate(value: string, kind: Kind, literal: (string, Kind) -> Option<V>,
                      interpolate: (string, map<string, V>) -> Option<V>): Option<V>
      reads this
    {
      if !kind.Env? then literal(value, kind)
      else if !Contains(Trim(value), "${") then GetExisted(Trim(value))
      else interpolate(value, envs)
    }

    /** The three ways to read a value: as its type says, as the name it is but for white space around it, or
        as text with `${}` in it. */
    lemma EvaluateIs(value: string, kind: Kind, name: string, literal: (string, Kind) -> Option<V>,
                     interpolate: (string, map<string, V>) -> Option<V>)
      ensures kind != Env ==> Evaluate(value, kind, literal, interpolate) == literal(value, kind)
      ensures kind == Env && name == Trim(value)
                && (forall i | 0 <= i < |name| - 1 :: !(name[i] == '$' && name[i + 1] == '{')) ==>
                Evaluate(value, kind, literal, interpolate) == GetExisted(name)
      ensures kind == Env && name == Trim(value)
                && (exists i :: 0 <= i < |name| - 1 && name[i] == '$' && name[i + 1] == '{') ==>
                Evaluate(value, kind, literal, interpolate) == interpolate(value, envs)
    {
      HoldsBraceIff(Trim(value));
    }

    /** Evaluates the entries in the given order, keeping what could be evaluated. */
    method EvaluateInOrder(entries: seq<EnvEntry>, order: seq<string>, literal: (string, Kind) -> Option<V>,
                           interpolate: (string, map<string, V>) -> Option<V>)
      requires DistinctNames(entries) && Distinct(order) && Names(entries) <= Elems(order)
      modifies this`envs
      ensures forall k | k !in Names(entries) :: SameAt(old(envs), envs, k)
      ensures Ordered(entries, order) && (forall e <- entries :: e.kind.Env? ==> Plain(e.value)) ==>
                Solves(entries, old(envs), parent, literal, envs)
    {
      hide Settled, Trim, Contains, Ordered;
      ghost var good := Ordered(entries, order) && forall e <- entries :: e.kind.Env? ==> Plain(e.value);
      for i := 0 to |order|
        invariant forall k | k !in Names(entries) || k !in order[..i] :: SameAt(old(envs), envs, k)
        invariant good ==> forall e <- entries :: e.name in order[..i] ==> Settled(e, old(envs), parent, literal, envs)
      {
        var key := order[i];
        assert order[..i + 1] == order[..i] + [key] && key !in order[..i];
        if e :| e in entries && e.name == key {
          var v := Evaluate(e.value, e.kind, literal, interpolate);
          ghost var before := envs;
          if v.Some? {
            envs := envs[e.name := v.value];
          }
          if good {
            SettleNext(entries, order, i, e, old(envs), before, envs, parent, literal);
          }
        } else {
          assert key !in Names(entries);
        }
      }
      assert order[..|order|] == order;
      forall e | e in entries ensures e.name in order {
        assert e.name in Names(entries);
      }
    }

    /** Loads a parsed list of entries; nothing happens when it could not be parsed. */
    method LoadJson(parsed: Option<seq<EnvEntry>>, literal: (string, Kind) -> Option<V>,
                    interpolate: (string, map<string, V>) -> Option<V>)
      modifies this`envs
      ensures parsed.None? ==> envs == old(envs)
      ensures parsed.Some? ==> forall k | k !in Names(parsed.value) :: SameAt(old(envs), envs, k)
      ensures parsed.Some? && PlainAndAcyclic(KeepLast(parsed.value)) ==>
                Solves(KeepLast(parsed.value), old(envs), parent, literal, envs)
      ensures parsed.Some? && PlainAndAcyclic(KeepLast(parsed.value)) ==>
                forall e <- KeepLast(parsed.value) | e.kind.Env? :: Refers(e, old(envs), parent, envs)
    {
      if parsed.Some? {
        var entries := KeepLast(parsed.value);
        KeepLastNames(parsed.value);
        var order := SortNames(entries);
        EvaluateInOrder(entries, order, literal, interpolate);
        if PlainAndAcyclic(entries) {
          forall e <- entries | e.kind.Env? ensures Refers(e, old(envs), parent, envs) {
            SettledRefers(e, old(envs), parent, literal, envs);
          }
        }
      }
    }
  }

  /** What a reference leaves: the final value of the variable in this store (for a self-reference, the
      value it had before), or else the value of the first of the stores around it that has one; without
      any, the name is as it was before. */
  ghost predicate Refers<V(!new)>(e: EnvEntry, before: map<string, V>, parent: Option<RedEnvs<V>>,
                                  after: map<string, V>) {
    var own := if e.value == e.name then before else after;
    && (e.value in own ==> e.name in after && after[e.name] == own[e.value])
    && (e.value !in own && parent.Some? ==>
          forall stores: seq<RedEnvs<V>>, i: nat | Outwards(stores, parent.value) && FirstHolder(stores, e.value, i) ::
            e.name in after && after[e.name] == stores[i].envs[e.value])
    && (e.value !in own && parent.Some? ==>
          forall stores: seq<RedEnvs<V>> | Outwards(stores, parent.value)
              && (forall s <- stores :: e.value !in s.envs) ::
            SameAt(before, after, e.name))
    && (e.value !in own && parent.None? ==> SameAt(before, after, e.name))
  }

  lemma SettledRefers<V(!new)>(e: EnvEntry, before: map<string, V>, parent: Option<RedEnvs<V>>,
                               literal: (string, Kind) -> Option<V>, after: map<string, V>)
    requires Settled(e, before, parent, literal, after) && e.kind.Env?
    ensures Refers(e, before, parent, after)
  {
    var own := if e.value == e.name then before else after;
    if e.value !in own && parent.Some? {
      forall stores: seq<RedEnvs<V>>, i: nat | Outwards(stores, parent.value) && FirstHolder(stores, e.value, i)
        ensures GetRawEnv(parent.value, e.value) == Some(stores[i].envs[e.value])
      {
        LookupIsFirst(stores, parent.value, e.value, i);
      }
      forall stores: seq<RedEnvs<V>> | Outwards(stores, parent.value) && (forall s <- stores :: e.value !in s.envs)
        ensures GetRawEnv(parent.value, e.value) == None
      {
        LookupNoneIff(stores, parent.value, e.value);
      }
    }
  }

  /** For example, a flow's variable that names one of the store around it takes that one's value. */
  method InheritedExample<V(==, !new)>(x: V, literal: (string, Kind) -> Option<V>,
                                       interpolate: (string, map<string, V>) -> Option<V>)
    returns (envs: map<string, V>)
    ensures envs == map["A" := x]
  {
    var outer := RedEnvs(map["B" := x], None);
    var builder := new RedEnvStoreBuilder<V>(Some(outer));
    var entries := [EnvEntry("A", "B", Env)];
    DistinctKept(entries);
    PlainIff("B");
    OneReference("A", "B");
    builder.LoadJson(Some(entries), literal, interpolate);
    envs := builder.envs;
    assert Outwards([outer], outer) && FirstHolder([outer], "B", 0);
    assert entries[0] in entries && Refers(entries[0], map[], Some(outer), envs);
    assert Names(entries) == {"A"};
    assert SameAt(map[], envs, "B");
    forall k | k in envs ensures k == "A" {
      assert k !in Names(entries) ==> SameAt(map[], envs, k);
    }
  }

  lemma OneReference(a: string, b: string)
    requires a != b
    ensures AcyclicButLoops(References([EnvEntry(a, b, Env)]))
  {
    var refs := References([EnvEntry(a, b, Env)]);
    forall u, v ensures Edge(refs, u, v) <==> u == a && v == b {
      ReferencesIff([EnvEntry(a, b, Env)], u, v);
    }
    if p :| PathFromTo(refs, p, b, a) {
      assert Edge(refs, p[0], p[1]);
    }
  }

  /** Exactly the edges that entries make. */
  lemma ReferencesIff(entries: seq<EnvEntry>, a: string, b: string)
    ensures Edge(References(entries), a, b) <==> EnvEntry(a, b, Env) in entries
  {
    if b in Targets(entries, a) {
      var e :| e in entries && e.kind.Env? && e.name == a && e.value == b;
      assert e == EnvEntry(a, b, Env);
    }
  }

  /** The text has a dollar sign before a brace. */
  lemma HoldsBraceIff(value: string)
    ensures Contains(value, "${") <==> exists i :: 0 <= i < |value| - 1 && value[i] == '$' && value[i + 1] == '{'
  {
    ContainsIff(value, "${");
    if k :| 0 <= k <= |value| && "${" <= value[k..] {
      assert value[k] == value[k..][0] == "${"[0] && value[k + 1] == value[k..][1] == "${"[1];
    }
    if k :| 0 <= k < |value| - 1 && value[k] == '$' && value[k + 1] == '{' {
      assert value[k..][..2] == "${";
      assert "${" <= value[k..];
    }
  }

  /** A bare name has no white space around it and no `${` in it. */
  lemma PlainIff(value: string)
    ensures Plain(value) <==>
              && (value != "" ==> !IsWhitespace(value[0]) && !IsWhitespace(value[|value| - 1]))
              && (forall i | 0 <= i < |value| - 1 :: !(value[i] == '$' && value[i + 1] == '{'))
  {
    var i, j := TrimIs(value);
    HoldsBraceIff(value);
    if value != "" && !IsWhitespace(value[0]) && !IsWhitespace(value[|value| - 1]) {
      assert i == 0 && j == |value|;
      assert value[0..|value|] == value;
    }
  }

  /** References are bare names and make no cycle but self-references. */
  ghost predicate PlainAndAcyclic(entries: seq<EnvEntry>) {
    (forall e <- entries :: e.kind.Env? ==> Plain(e.value)) && AcyclicButLoops(References(entries))
  }

  /** Two lists with the same last entries load to the same map, whatever their order. */
  lemma OrderIndependent<V>(xs: seq<EnvEntry>, ys: seq<EnvEntry>, before: map<string, V>, parent: Option<RedEnvs<V>>,
                            literal: (string, Kind) -> Option<V>, a: map<string, V>, b: map<string, V>)
    requires forall e :: e in KeepLast(xs) <==> e in KeepLast(ys)
    requires PlainAndAcyclic(KeepLast(xs))
    requires Solves(KeepLast(xs), before, parent, literal, a) && Solves(KeepLast(ys), before, parent, literal, b)
    ensures a == b
  {
    assert Names(KeepLast(xs)) == Names(KeepLast(ys));
    SolutionUnique(KeepLast(xs), before, parent, literal, a, b);
  }

  /** Entries with distinct names are all kept. */
  lemma {:induction false} DistinctKept(xs: seq<EnvEntry>)
    requires DistinctNames(xs)
    ensures KeepLast(xs) == xs
  {
    if xs != [] {
      DistinctKept(xs[1..]);
    }
  }

  lemma {:induction false} NamedOnce(xs: seq<EnvEntry>, e: EnvEntry)
    requires DistinctNames(xs)
    ensures multiset(xs)[e] <= 1
  {
    if xs != [] {
      assert xs == [xs[0]] + xs[1..];
      NamedOnce(xs[1..], e);
      if xs[0] == e {
        assert e !in xs[1..];
      }
    }
  }

  lemma HeldTwice(ys: seq<EnvEntry>, i: nat, j: nat)
    requires i < j < |ys| && ys[i] == ys[j]
    ensures multiset(ys)[ys[i]] >= 2
  {
    assert ys == ys[..j] + ys[j..];
    assert ys[..j][i] == ys[i] && ys[j..][0] == ys[i];
  }

  /** A permutation of entries with distinct names has distinct names. */
  lemma PermutedDistinct(xs: seq<EnvEntry>, ys: seq<EnvEntry>)
    requires multiset(xs) == multiset(ys) && DistinctNames(xs)
    ensures DistinctNames(ys) && forall e :: e in xs <==> e in ys
  {
    forall e ensures e in xs <==> e in ys {
      assert e in multiset(xs) <==> e in multiset(ys);
    }
    forall i, j | 0 <= i < j < |ys| ensures ys[i].name != ys[j].name {
      if ys[i].name == ys[j].name {
        assert ys[i] in xs && ys[j] in xs;
        HeldTwice(ys, i, j);
        NamedOnce(xs, ys[i]);
      }
    }
  }

  /** The same entries refer to the same names. */
  lemma AcyclicToo(xs: seq<EnvEntry>, ys: seq<EnvEntry>)
    requires (forall e :: e in xs <==> e in ys) && AcyclicButLoops(References(xs))
    ensures AcyclicButLoops(References(ys))
  {
    var g, h := References(xs), References(ys);
    assert forall u, v :: Edge(g, u, v) <==> Edge(h, u, v);
    hide References;
    forall u, v | Edge(h, u, v) && u != v ensures !Reach(h, v, u) {
      ReachToo(h, g, v, u);
    }
  }

  lemma ReachToo(h: Adjacency<string, ()>, g: Adjacency<string, ()>, u: string, v: string)
    requires forall a, b :: Edge(h, a, b) ==> Edge(g, a, b)
    ensures Reach(h, u, v) ==> Reach(g, u, v)
  {
    if p :| PathFromTo(h, p, u, v) {
      assert PathFromTo(g, p, u, v);
    }
  }

  /** Loading two permutations of entries with distinct names gives the same variables. */
  method LoadPermuted<V(==, !new)>(xs: seq<EnvEntry>, ys: seq<EnvEntry>, parent: Option<RedEnvs<V>>,
                                   literal: (string, Kind) -> Option<V>,
                                   interpolate: (string, map<string, V>) -> Option<V>)
    returns (a: map<string, V>, b: map<string, V>)
    requires multiset(xs) == multiset(ys) && DistinctNames(xs) && PlainAndAcyclic(xs)
    ensures a == b && Solves(xs, map[], parent, literal, a)
  {
    hide DistinctNames, AcyclicButLoops, Plain, Solves, References;
    PermutedDistinct(xs, ys);
    DistinctKept(xs);
    DistinctKept(ys);
    AcyclicToo(xs, ys);
    var one := new RedEnvStoreBuilder<V>(parent);
    one.LoadJson(Some(xs), literal, interpolate);
    var two := new RedEnvStoreBuilder<V>(parent);
    two.LoadJson(Some(ys), literal, interpolate);
    a, b := one.envs, two.envs;
    OrderIndependent(xs, ys, map[], parent, literal, a, b);
  }

  /** One evaluation settles its entry and leaves the settled ones settled. */
  lemma SettleNext<V>(entries: seq<EnvEntry>, order: seq<string>, i: nat, e: EnvEntry, start: map<string, V>,
                      before: map<string, V>, after: map<string, V>, parent: Option<RedEnvs<V>>,
                      literal: (string, Kind) -> Option<V>)
    requires DistinctNames(entries) && Distinct(order) && Ordered(entries, order)
    requires i < |order| && e in entries && e.name == order[i]
    requires forall k | k !in order[..i] :: SameAt(start, before, k)
    requires forall d <- entries :: d.name in order[..i] ==> Settled(d, start, parent, literal, before)
    requires var v := if e.kind.Env? then Found(before, parent, e.value) else literal(e.value, e.kind);
             after == if v.Some? then before[e.name := v.value] else before
    ensures forall d <- entries :: d.name in order[..i + 1] ==> Settled(d, start, parent, literal, after)
  {
    forall d | d in entries && d.name in order[..i + 1] ensures Settled(d, start, parent, literal, after) {
      if d.name == e.name {
        var a, b :| 0 <= a < |entries| && entries[a] == d && 0 <= b < |entries| && entries[b] == e;
        assert d == e;
        assert e.name !in order[..i];
      } else {
        var j :| 0 <= j < i + 1 && order[j] == d.name;
        assert j < i && d.name in order[..i];
        if d.kind.Env? && d.value != d.name {
          assert d.value in order[..j];
          assert d.value != e.name;
        }
      }
    }
  }
}
