/** Where the broker files each subscription, what the resulting table holds after
    any run of operations, and which subscribers a topic reaches. */
module TopicIndex {
  import opened TopicFilters

  datatype QoS = AtMostOnce | AtLeastOnce | ExactlyOnce

  datatype Subscription = Subscription(clientId: string, qos: QoS)

  // ---- Slots -------------------------------------------------------------

  /** A trie node's own list, a trie node's `#` list, or the linear `+` list. */
  datatype Slot = Exact(path: seq<string>) | Multi(path: seq<string>) | Wild(filter: string)

  /** The levels that name trie nodes: node search skips wildcard levels. */
  function Strip(levels: seq<string>): seq<string> {
    if levels == [] then []
    else if levels[0] == "+" || levels[0] == "#" then Strip(levels[1..])
    else [levels[0]] + Strip(levels[1..])
  }

  lemma {:induction false} StripFacts(levels: seq<string>)
    ensures "+" !in Strip(levels) && "#" !in Strip(levels)
    ensures forall l <- Strip(levels) :: l in levels
    ensures |Strip(levels)| <= |levels|
    ensures "+" !in levels && "#" !in levels ==> Strip(levels) == levels
    ensures "+" in levels || "#" in levels ==> |Strip(levels)| < |levels|
  {
    if levels != [] {
      StripFacts(levels[1..]);
      assert levels == [levels[0]] + levels[1..];
    }
  }

  lemma {:induction false} StripConcat(a: seq<string>, b: seq<string>)
    ensures Strip(a + b) == Strip(a) + Strip(b)
  {
    if a == [] {
      assert a + b == b;
    } else {
      assert (a + b)[1..] == a[1..] + b;
      StripConcat(a[1..], b);
    }
  }

  lemma StripSnoc(levels: seq<string>, level: string)
    ensures Strip(levels + [level]) == Strip(levels) + if level == "+" || level == "#" then [] else [level]
  {
    StripConcat(levels, [level]);
  }

  function SlotOf(filter: string): Slot {
    var levels := Split(filter);
    if EndsWithHash(filter) then Multi(Strip(levels[..|levels| - 1]))
    else if "+" in levels then Wild(filter)
    else Exact(Strip(levels))
  }

  /** The rule each of the three storage shapes is matched with. */
  predicate SlotMatches(slot: Slot, topic: seq<string>) {
    match slot
    case Exact(path) => path == topic
    case Multi(path) => path <= topic
    case Wild(filter) => SingleWildcardMatches(Split(filter), topic)
  }

  predicate SingleWildcardMatches(filter: seq<string>, topic: seq<string>) {
    |filter| == |topic| && forall i | 0 <= i < |filter| :: filter[i] == "+" || filter[i] == topic[i]
  }

  // ---- When a slot means what its filter says -----------------------------

  function Lits(path: seq<string>): (r: seq<Level>)
    ensures |r| == |path|
  {
    seq(|path|, i requires 0 <= i < |path| => Lit(path[i]))
  }

  function SlotPattern(slot: Slot): Pattern {
    match slot
    case Exact(path) => Pattern(Lits(path), false)
    case Multi(path) => Pattern(Lits(path), true)
    case Wild(filter) => Pattern(LevelsOf(Split(filter)), false)
  }

  lemma SlotMatchesIsAccepts(slot: Slot, topic: seq<string>)
    ensures SlotMatches(slot, topic) <==> Accepts(SlotPattern(slot), topic)
  {
    var p := SlotPattern(slot);
    if slot.Wild? {
      var f := Split(slot.filter);
      assert forall i | 0 <= i < |f| && i < |topic| :: Fits(p.levels[i], topic[i]) <==> f[i] == "+" || f[i] == topic[i];
    } else {
      assert forall i | 0 <= i < |slot.path| && i < |topic| :: Fits(p.levels[i], topic[i]) <==>
               slot.path[i] == topic[i];
    }
  }

  /** Live routing through the filter's slot agrees with the plain matcher on every topic. */
  ghost predicate Agrees(filter: string) {
    forall topic: string :: SlotMatches(SlotOf(filter), Split(topic)) == Matches(Split(filter), Split(topic))
  }

  lemma SlashFreePatterns(filter: string)
    ensures SlashFree(SlotPattern(SlotOf(filter))) && SlashFree(FilterPattern(Split(filter)))
  {
    hide SlotPattern, SlotOf, FilterPattern;
    FilterPatternLevels(Split(filter));
    SlotPatternLevels(filter);
  }

  lemma LitsLevels(path: seq<string>)
    ensures forall l <- Lits(path) :: l.Lit? && l.text in path
  {
  }

  lemma LevelsOfLevels(texts: seq<string>)
    ensures forall l <- LevelsOf(texts) :: l.Lit? ==> l.text in texts
  {
  }

  /** A slot's pattern names only levels of the filter. */
  lemma SlotPatternLevels(filter: string)
    ensures forall l <- SlotPattern(SlotOf(filter)).levels :: l.Lit? ==> l.text in Split(filter)
  {
    hide Lits, LevelsOf, Strip, Split;
    var levels := Split(filter);
    var parent := levels[..|levels| - 1];
    StripFacts(levels);
    StripFacts(parent);
    LitsLevels(Strip(levels));
    LitsLevels(Strip(parent));
    LitsLevels([]);
    LevelsOfLevels(levels);
  }

  lemma {:induction false} FilterPatternLevels(filter: seq<string>)
    ensures forall l <- FilterPattern(filter).levels :: l.Lit? ==> l.text in filter
  {
    if filter != [] && filter[0] != "#" {
      FilterPatternLevels(filter[1..]);
    }
  }

  /** For every filter text, well formed or not: agreement is decided by two finite patterns. */
  lemma AgreesDecided(filter: string)
    ensures var p, q := SlotPattern(SlotOf(filter)), FilterPattern(Split(filter));
            Agrees(filter) <==> p == q || (AcceptsEverything(p) && AcceptsEverything(q))
  {
    var p, q := SlotPattern(SlotOf(filter)), FilterPattern(Split(filter));
    SlashFreePatterns(filter);
    PatternsDecided(p, q);
    forall topic: string
      ensures SlotMatches(SlotOf(filter), Split(topic)) == Accepts(p, Split(topic))
      ensures Matches(Split(filter), Split(topic)) == Accepts(q, Split(topic))
    {
      SlotMatchesIsAccepts(SlotOf(filter), Split(topic));
      MatchesIsAccepts(Split(filter), Split(topic));
    }
  }

  /** Section 4.7.1 of MQTT 3.1.1: wildcards stand alone, and `#` comes last. */
  predicate WellFormed(filter: string) {
    var levels := Split(filter);
    forall i | 0 <= i < |levels| ::
      && ('#' in levels[i] ==> levels[i] == "#" && i == |levels| - 1)
      && ('+' in levels[i] ==> levels[i] == "+")
  }

  predicate Mixed(filter: string) {
    "+" in Split(filter) && EndsWithHash(filter)
  }

  /** Said of the levels a filter is made of. */
  lemma WellFormedJoin(levels: seq<string>)
    requires |levels| >= 1 && forall l <- levels :: '/' !in l
    ensures WellFormed(Join(levels)) <==>
              && (forall i | 0 <= i < |levels| && '#' in levels[i] :: levels[i] == "#" && i == |levels| - 1)
              && (forall i | 0 <= i < |levels| && '+' in levels[i] :: levels[i] == "+")
  {
    SplitJoin(levels);
    hide Split, Join;
  }

  lemma HashIsLast(levels: seq<string>)
    requires |levels| >= 1
    requires forall i | 0 <= i < |levels| && '#' in levels[i] :: levels[i] == "#" && i == |levels| - 1
    ensures EndsWithHash(levels[|levels| - 1]) <==> "#" in levels
  {
    var last := levels[|levels| - 1];
    assert EndsWithHash(last) ==> '#' in last;
    if "#" in levels {
      var i :| 0 <= i < |levels| && levels[i] == "#";
      assert '#' in levels[i];
    }
  }

  lemma MixedJoin(levels: seq<string>)
    requires |levels| >= 1 && (forall l <- levels :: '/' !in l) && WellFormed(Join(levels))
    ensures Mixed(Join(levels)) <==> "+" in levels && "#" in levels
  {
    hide WellFormed, Split, Join, EndsWithHash;
    WellFormedJoin(levels);
    HashIsLast(levels);
    var filter := Join(levels);
    SplitJoin(levels);
    LastLevelEnding(filter);
    assert Split(filter)[|Split(filter)| - 1] == levels[|levels| - 1];
  }

  lemma {:induction false} PatternWithoutHash(levels: seq<string>)
    requires "#" !in levels
    ensures FilterPattern(levels) == Pattern(LevelsOf(levels), false)
    ensures FilterPattern(levels + ["#"]) == Pattern(LevelsOf(levels), true)
  {
    if levels != [] {
      PatternWithoutHash(levels[1..]);
      assert (levels + ["#"])[1..] == levels[1..] + ["#"];
      assert LevelsOf(levels) == [LevelOf(levels[0])] + LevelsOf(levels[1..]);
    }
  }

  /** The shape of a well formed filter that ends with '#'. */
  lemma HashShape(filter: string)
    requires WellFormed(filter) && EndsWithHash(filter)
    ensures var levels := Split(filter); var parent := levels[..|levels| - 1];
            levels == parent + ["#"] && "#" !in parent
  {
    var levels := Split(filter);
    LastLevelEnding(filter);
    var last := levels[|levels| - 1];
    assert last[|last| - 1] in last;
    assert '#' in "#";
  }

  lemma PlainShape(filter: string)
    requires WellFormed(filter) && !EndsWithHash(filter)
    ensures "#" !in Split(filter)
  {
    LastLevelEnding(filter);
    assert '#' in "#";
  }

  lemma HashAgreement(filter: string)
    requires WellFormed(filter) && EndsWithHash(filter)
    ensures Agrees(filter) <==> "+" !in Split(filter) || Split(filter) == ["+", "#"]
  {
    AgreesDecided(filter);
    HashShape(filter);
    var levels := Split(filter);
    var parent := levels[..|levels| - 1];
    var q := FilterPattern(levels);
    PatternWithoutHash(parent);
    StripFacts(parent);
    if "+" in parent {
      var i :| 0 <= i < |parent| && parent[i] == "+";
      assert q.levels[i] == Any;
      assert LevelsOf(parent) == [Any] <==> parent == ["+"];
    } else {
      assert Lits(parent) == LevelsOf(parent);
    }
  }

  lemma PlainAgreement(filter: string)
    requires WellFormed(filter) && !EndsWithHash(filter)
    ensures Agrees(filter)
  {
    AgreesDecided(filter);
    PlainShape(filter);
    var levels := Split(filter);
    PatternWithoutHash(levels);
    StripFacts(levels);
    if "+" !in levels {
      assert Lits(levels) == LevelsOf(levels);
    }
  }

  /** Well formed filters agree with the matcher exactly when they do not mix `+` and `#`,
      the one exception being `+/#`. */
  lemma WellFormedAgreement(filter: string)
    requires WellFormed(filter)
    ensures Agrees(filter) <==> !Mixed(filter) || filter == "+/#"
  {
    if EndsWithHash(filter) {
      HashAgreement(filter);
      JoinSplit(filter);
      SplitJoin(["+", "#"]);
      assert Join(["+", "#"]) == "+/#";
    } else {
      PlainAgreement(filter);
    }
  }

  /** A well formed filter that ends with '#' is filed under its named levels. */
  lemma HashSlot(filter: string)
    requires WellFormed(filter) && EndsWithHash(filter)
    ensures SlotOf(filter) == Multi(Strip(Split(filter)))
    ensures !Mixed(filter) ==> Strip(Split(filter)) + ["#"] == Split(filter)
  {
    HashShape(filter);
    var levels := Split(filter);
    var parent := levels[..|levels| - 1];
    StripSnoc(parent, "#");
    StripFacts(parent);
    assert Strip(levels) == Strip(parent);
    if "+" in parent {
      assert "+" in levels;
    }
  }

  /** Two well formed filters share a slot exactly when they are equal, or both end in `#`
      and name the same nodes once `+` levels are skipped. */
  lemma SlotCollision(f: string, g: string)
    requires WellFormed(f) && WellFormed(g)
    ensures SlotOf(f) == SlotOf(g) <==>
            f == g || (EndsWithHash(f) && EndsWithHash(g) && Strip(Split(f)) == Strip(Split(g)))
  {
    if EndsWithHash(f) { HashSlot(f); } else { PlainSlot(f); }
    if EndsWithHash(g) { HashSlot(g); } else { PlainSlot(g); }
  }

  /** Any other well formed filter is recovered from its slot. */
  lemma PlainSlot(filter: string)
    requires WellFormed(filter) && !EndsWithHash(filter)
    ensures match SlotOf(filter)
            case Exact(path) => path == Split(filter) && Join(path) == filter
            case Multi(_) => false
            case Wild(f) => f == filter
  {
    PlainShape(filter);
    StripFacts(Split(filter));
    JoinSplit(filter);
  }

  /** Filters that do not mix the wildcards never share a slot. */
  lemma RegularFiltersApart(f: string, g: string)
    requires WellFormed(f) && WellFormed(g) && !Mixed(f) && !Mixed(g)
    ensures SlotOf(f) == SlotOf(g) ==> f == g
  {
    SlotCollision(f, g);
    JoinSplit(f);
    JoinSplit(g);
    if EndsWithHash(f) { HashSlot(f); }
    if EndsWithHash(g) { HashSlot(g); }
  }

  // ---- Tables and runs ---------------------------------------------------

  datatype Key = Key(slot: Slot, clientId: string)

  type Table = map<Key, QoS>

  datatype Op =
    | Subscribe(clientId: string, filter: string, qos: QoS)
    | Unsubscribe(clientId: string, filter: string)
    | RemoveClient(clientId: string)

  /** The entries a client holds. */
  function KeysOf(table: Table, client: string): set<Key> {
    set k | k in table && k.clientId == client
  }

  /** What one operation does to the filed entries. */
  function Apply(table: Table, op: Op): Table {
    match op
    case Subscribe(c, f, q) => table[Key(SlotOf(f), c) := q]
    case Unsubscribe(c, f) => table - {Key(SlotOf(f), c)}
    case RemoveClient(c) => table - KeysOf(table, c)
  }

  function Run(ops: seq<Op>): Table {
    if ops == [] then map[] else Apply(Run(ops[..|ops| - 1]), ops[|ops| - 1])
  }

  /** The simple index: one entry for each client and filter text. */
  datatype Pair = Pair(clientId: string, filter: string)

  type PlainIndex = map<Pair, QoS>

  function PlainApply(plain: PlainIndex, op: Op): PlainIndex {
    match op
    case Subscribe(c, f, q) => plain[Pair(c, f) := q]
    case Unsubscribe(c, f) => plain - {Pair(c, f)}
    case RemoveClient(c) => plain - set p | p in plain && p.clientId == c
  }

  function PlainRun(ops: seq<Op>): PlainIndex {
    if ops == [] then map[] else PlainApply(PlainRun(ops[..|ops| - 1]), ops[|ops| - 1])
  }

  /** The call settles whether the pair is subscribed. */
  predicate Settles(op: Op, p: Pair) {
    op.clientId == p.clientId && (op.RemoveClient? || op.filter == p.filter)
  }

  /** A pair is subscribed with a QoS exactly when the last call that settles it subscribed it so. */
  lemma {:induction false} LastCallDecides(ops: seq<Op>, p: Pair, q: QoS)
    ensures p in PlainRun(ops) && PlainRun(ops)[p] == q <==>
              exists i :: 0 <= i < |ops| && ops[i] == Op.Subscribe(p.clientId, p.filter, q)
                          && forall j | i < j < |ops| :: !Settles(ops[j], p)
  {
    if ops != [] {
      var front, last := ops[..|ops| - 1], ops[|ops| - 1];
      LastCallDecides(front, p, q);
      if Settles(last, p) {
        if last == Op.Subscribe(p.clientId, p.filter, q) {
          assert ops[|ops| - 1] == last;
        }
      } else {
        if i :| 0 <= i < |front| && front[i] == Op.Subscribe(p.clientId, p.filter, q)
                && forall j | i < j < |front| :: !Settles(front[j], p) {
          assert ops[i] == front[i];
          assert forall j | i < j < |ops| :: j == |ops| - 1 || ops[j] == front[j];
        }
        if i :| 0 <= i < |ops| && ops[i] == Op.Subscribe(p.clientId, p.filter, q)
                && forall j | i < j < |ops| :: !Settles(ops[j], p) {
          assert i < |front| && front[i] == ops[i];
          assert forall j | i < j < |front| :: front[j] == ops[j];
        }
        assert p in PlainRun(ops) <==> p in PlainRun(front);
      }
    }
  }

  function KeyOf(p: Pair): Key {
    Key(SlotOf(p.filter), p.clientId)
  }

  /** Each entry of `plain` is stored once, under its key, and nothing else is stored. */
  ghost predicate StoredAs<P(!new), K>(table: map<K, QoS>, plain: map<P, QoS>, key: P -> K) {
    && (forall p <- plain :: key(p) in table && table[key(p)] == plain[p])
    && Apart(plain.Keys, key)
    && (forall k <- table :: exists p :: p in plain && key(p) == k)
  }

  ghost predicate Apart<P(!new), K>(entries: set<P>, key: P -> K) {
    forall p, p' | p in entries && p' in entries :: key(p) == key(p') ==> p == p'
  }

  ghost predicate Represents(table: Table, plain: PlainIndex) {
    StoredAs(table, plain, KeyOf)
  }

  lemma StoreOne<P(!new), K>(table: map<K, QoS>, plain: map<P, QoS>, key: P -> K, p: P, q: QoS)
    requires StoredAs(table, plain, key) && Apart(plain.Keys + {p}, key)
    ensures StoredAs(table[key(p) := q], plain[p := q], key)
  {
    var table', plain' := table[key(p) := q], plain[p := q];
    assert plain'.Keys == plain.Keys + {p};
    forall k | k in table' ensures exists p' :: p' in plain' && key(p') == k {
      if k == key(p) {
        assert p in plain';
      } else {
        var p' :| p' in plain && key(p') == k;
        assert p' in plain';
      }
    }
  }

  lemma DropSome<P(!new), K>(table: map<K, QoS>, plain: map<P, QoS>, key: P -> K, gone: set<P>, goneKeys: set<K>)
    requires StoredAs(table, plain, key)
    requires forall p <- plain :: p in gone <==> key(p) in goneKeys
    ensures StoredAs(table - goneKeys, plain - gone, key)
  {
    forall k | k in table - goneKeys ensures exists p :: p in plain - gone && key(p) == k {
      var p :| p in plain && key(p) == k;
      assert p in plain - gone;
    }
  }

  ghost predicate Over(ops: seq<Op>, filters: set<string>) {
    forall op <- ops :: op.RemoveClient? || op.filter in filters
  }

  ghost predicate SlotsApart(filters: set<string>) {
    forall f, g | f in filters && g in filters :: SlotOf(f) == SlotOf(g) ==> f == g
  }

  lemma {:induction false} RunFilters(ops: seq<Op>, filters: set<string>)
    requires Over(ops, filters)
    ensures forall p <- PlainRun(ops) :: p.filter in filters
  {
    if ops != [] {
      RunFilters(ops[..|ops| - 1], filters);
      assert ops[|ops| - 1] in ops;
    }
  }

  lemma StepRepresents(table: Table, plain: PlainIndex, op: Op, filters: set<string>)
    requires SlotsApart(filters) && (op.RemoveClient? || op.filter in filters)
    requires forall p <- plain :: p.filter in filters
    requires Represents(table, plain)
    ensures Represents(Apply(table, op), PlainApply(plain, op))
  {
    match op
    case Subscribe(c, f, q) =>
      KeysApart(plain.Keys + {Pair(c, f)}, filters);
      StoreOne(table, plain, KeyOf, Pair(c, f), q);
    case Unsubscribe(c, f) =>
      KeysApart(plain.Keys + {Pair(c, f)}, filters);
      DropSome(table, plain, KeyOf, {Pair(c, f)}, {Key(SlotOf(f), c)});
    case RemoveClient(c) =>
      var gone := set p | p in plain && p.clientId == c;
      DropSome(table, plain, KeyOf, gone, KeysOf(table, c));
  }

  lemma KeysApart(pairs: set<Pair>, filters: set<string>)
    requires SlotsApart(filters) && forall p <- pairs :: p.filter in filters
    ensures Apart(pairs, KeyOf)
  {
  }

  /** Every run over filters that keep apart leaves exactly the plain index in the trie. */
  lemma {:induction false} RunRepresents(ops: seq<Op>, filters: set<string>)
    requires Over(ops, filters) && SlotsApart(filters)
    ensures Represents(Run(ops), PlainRun(ops))
  {
    if ops != [] {
      var before := ops[..|ops| - 1];
      RunRepresents(before, filters);
      RunFilters(before, filters);
      assert ops[|ops| - 1] in ops;
      StepRepresents(Run(before), PlainRun(before), ops[|ops| - 1], filters);
    }
  }

  /** The trie is a faithful index for a set of filters exactly when they keep apart. */
  lemma FaithfulIffApart(filters: set<string>)
    ensures (forall ops | Over(ops, filters) :: Represents(Run(ops), PlainRun(ops))) <==> SlotsApart(filters)
  {
    if SlotsApart(filters) {
      forall ops | Over(ops, filters) ensures Represents(Run(ops), PlainRun(ops)) {
        RunRepresents(ops, filters);
      }
    } else {
      var f, g :| f in filters && g in filters && SlotOf(f) == SlotOf(g) && f != g;
      var first := Subscribe("c", f, AtMostOnce);
      var ops := [first, Subscribe("c", g, AtLeastOnce)];
      assert ops[..1] == [first] && [first][..0] == [];
      assert PlainRun([first]) == map[Pair("c", f) := AtMostOnce];
      assert Pair("c", f) in PlainRun(ops) && Pair("c", g) in PlainRun(ops);
      assert Over(ops, filters) && !Represents(Run(ops), PlainRun(ops));
    }
  }

  /** Every mixed filter shares its slot with the filter that drops its `+` levels. */
  lemma MixedCollides(g: string) returns (f: string)
    requires WellFormed(g) && Mixed(g)
    ensures WellFormed(f) && !Mixed(f) && f != g && SlotOf(f) == SlotOf(g)
  {
    var levels := Split(g);
    var path := Strip(levels);
    HashSlot(g);
    StripFacts(levels);
    f := Join(path + ["#"]);
    assert forall l <- path :: l in levels && l != "#" && l != "+";
    assert "+" !in path + ["#"];
    SplitJoin(path + ["#"]);
    LastLevelEnding(f);
    NamedLevels(levels);
    assert forall i | 0 <= i < |path| :: path[i] in path;
    assert '#' in "#" && '+' !in "#";
    assert WellFormed(f);
    HashSlot(f);
    StripSnoc(path, "#");
    StripFacts(path);
  }

  lemma NamedLevels(levels: seq<string>)
    requires forall i | 0 <= i < |levels| ::
               && ('#' in levels[i] ==> levels[i] == "#" && i == |levels| - 1)
               && ('+' in levels[i] ==> levels[i] == "+")
    ensures forall l <- Strip(levels) :: '#' !in l && '+' !in l
  {
    StripFacts(levels);
    forall l | l in Strip(levels) ensures '#' !in l && '+' !in l {
      var i :| 0 <= i < |levels| && levels[i] == l;
    }
  }

  /** For example, `a/+/#` is filed with `a/#`. */
  lemma MixedExample()
    ensures SlotOf("a/#") == SlotOf("a/+/#")
  {
    SplitJoin(["a", "#"]);
    SplitJoin(["a", "+", "#"]);
    assert ["a", "+", "#"][1..] == ["+", "#"];
    assert Join(["a", "#"]) == "a/#";
    assert Join(["+", "#"]) == "+/#";
    assert Join(["a", "+", "#"]) == "a/+/#";
    assert ["a", "+", "#"][..2] == ["a"] + ["+"] && ["a", "#"][..1] == ["a"];
    StripSnoc(["a"], "+");
    assert EndsWithHash("a/#") && EndsWithHash("a/+/#");
  }

  // ---- Routing -----------------------------------------------------------

  /** The entries a topic reaches. */
  function Reached(table: Table, topic: string): set<Key> {
    set k | k in table && SlotMatches(k.slot, Split(topic))
  }

  /** After any run over filters that keep apart and agree with the matcher, a topic reaches
      exactly one entry for each subscribed pair whose filter matches it. */
  lemma RoutingIsMatching(ops: seq<Op>, filters: set<string>, topic: string)
    requires Over(ops, filters) && SlotsApart(filters)
    requires forall f <- filters :: Agrees(f)
    ensures var plain := PlainRun(ops);
            && Reached(Run(ops), topic)
               == (set p | p in plain && Matches(Split(p.filter), Split(topic)) :: KeyOf(p))
            && forall p <- plain :: KeyOf(p) in Run(ops) && Run(ops)[KeyOf(p)] == plain[p]
  {
    RunRepresents(ops, filters);
    RunFilters(ops, filters);
    var plain := PlainRun(ops);
    forall k | k in Reached(Run(ops), topic)
      ensures exists p :: p in plain && Matches(Split(p.filter), Split(topic)) && KeyOf(p) == k
    {
      var p :| p in plain && KeyOf(p) == k;
      assert Agrees(p.filter);
    }
  }

  /** Well formed filters that do not mix `+` and `#` meet both conditions. */
  lemma RegularRouting(ops: seq<Op>, filters: set<string>, topic: string)
    requires Over(ops, filters)
    requires forall f <- filters :: WellFormed(f) && !Mixed(f)
    ensures var plain := PlainRun(ops);
            && Represents(Run(ops), plain)
            && Reached(Run(ops), topic)
               == (set p | p in plain && Matches(Split(p.filter), Split(topic)) :: KeyOf(p))
  {
    forall f, g | f in filters && g in filters ensures SlotOf(f) == SlotOf(g) ==> f == g {
      RegularFiltersApart(f, g);
    }
    forall f | f in filters ensures Agrees(f) {
      WellFormedAgreement(f);
    }
    RunRepresents(ops, filters);
    RoutingIsMatching(ops, filters, topic);
  }
}
