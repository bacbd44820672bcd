/** Topic names and topic filters of the MQTT broker as level lists, the plain
    filter matcher, and when two matching rules accept the same topics. */
module TopicFilters {

  // ---- Levels ------------------------------------------------------------

  /** A text cut at every '/', as `split('/')` does: never empty. */
  function Split(s: string): (levels: seq<string>)
    ensures |levels| >= 1
    ensures forall l <- levels :: '/' !in l
  {
    if s == "" then [""]
    else
      var rest := Split(s[1..]);
      if s[0] == '/' then [""] + rest else [[s[0]] + rest[0]] + rest[1..]
  }

  function Join(levels: seq<string>): string
    requires |levels| >= 1
  {
    if |levels| == 1 then levels[0] else levels[0] + "/" + Join(levels[1..])
  }

  lemma {:induction false} JoinSplit(s: string)
    ensures Join(Split(s)) == s
  {
    if s != "" {
      var rest := Split(s[1..]);
      JoinSplit(s[1..]);
      if s[0] == '/' {
        assert ([""] + rest)[1..] == rest;
      } else if |rest| > 1 {
        assert ([[s[0]] + rest[0]] + rest[1..])[1..] == rest[1..];
      }
    }
  }

  lemma {:induction false} SplitJoin(levels: seq<string>)
    requires |levels| >= 1 && forall l <- levels :: '/' !in l
    ensures Split(Join(levels)) == levels
    decreases |levels|, |levels[0]|
  {
    var first := levels[0];
    if first != "" {
      var shorter := [first[1..]] + levels[1..];
      assert shorter[1..] == levels[1..];
      assert first in levels && forall c <- first[1..] :: c in first;
      assert forall l <- shorter :: l == first[1..] || l in levels;
      SplitJoin(shorter);
      assert first[0] in first && [first[0]] + first[1..] == first;
      assert Join(levels)[0] == first[0] && Join(levels)[1..] == Join(shorter);
      assert [first] + shorter[1..] == levels;
    } else if |levels| > 1 {
      SplitJoin(levels[1..]);
      assert Join(levels)[1..] == Join(levels[1..]);
    }
  }

  /** A text ends with '#' exactly when its last level does. */
  lemma {:induction false} LastLevelEnding(s: string)
    ensures EndsWithHash(s) <==> EndsWithHash(Split(s)[|Split(s)| - 1])
  {
    if |s| >= 2 {
      LastLevelEnding(s[1..]);
      assert s[1..][|s| - 2] == s[|s| - 1];
    }
  }

  predicate EndsWithHash(s: string) {
    |s| > 0 && s[|s| - 1] == '#'
  }

  // ---- The plain matcher -------------------------------------------------

  /** Which topics a filter accepts, level by level (section 4.7.1 of MQTT 3.1.1). */
  predicate Matches(filter: seq<string>, topic: seq<string>) {
    if filter == [] then topic == []
    else if filter[0] == "#" then true
    else topic != [] && (filter[0] == "+" || filter[0] == topic[0]) && Matches(filter[1..], topic[1..])
  }

  method TopicMatchesFilter(filter: string, topic: string) returns (b: bool)
    ensures b == Matches(Split(filter), Split(topic))
  {
    var fp, tp := Split(filter), Split(topic);
    var fi, ti := 0, 0;
    while fi < |fp| && ti < |tp|
      invariant 0 <= fi <= |fp| && 0 <= ti <= |tp|
      invariant Matches(fp, tp) == Matches(fp[fi..], tp[ti..])
    {
      if fp[fi] == "#" {
        return true;
      }
      if fp[fi] == "+" || fp[fi] == tp[ti] {
        assert fp[fi..][1..] == fp[fi + 1..] && tp[ti..][1..] == tp[ti + 1..];
        fi := fi + 1;
        ti := ti + 1;
      } else {
        return false;
      }
    }
    return (fi == |fp| && ti == |tp|) || (fi < |fp| && fp[fi] == "#");
  }

  // ---- Patterns: the shape shared by every matching rule ------------------

  datatype Level = Any | Lit(text: string)

  /** Fixed levels, and whether further levels may follow. */
  datatype Pattern = Pattern(levels: seq<Level>, open: bool)

  predicate Fits(level: Level, text: string) {
    level == Any || level == Lit(text)
  }

  predicate Accepts(p: Pattern, topic: seq<string>) {
    && (if p.open then |p.levels| <= |topic| else |p.levels| == |topic|)
    && forall i | 0 <= i < |p.levels| :: Fits(p.levels[i], topic[i])
  }

  function LevelOf(text: string): Level {
    if text == "+" then Any else Lit(text)
  }

  function LevelsOf(texts: seq<string>): (r: seq<Level>)
    ensures |r| == |texts|
  {
    seq(|texts|, i requires 0 <= i < |texts| => LevelOf(texts[i]))
  }

  /** The levels before the first `#`; open when there is one. */
  function FilterPattern(filter: seq<string>): Pattern {
    if filter == [] then Pattern([], false)
    else if filter[0] == "#" then Pattern([], true)
    else
      var rest := FilterPattern(filter[1..]);
      Pattern([LevelOf(filter[0])] + rest.levels, rest.open)
  }

  lemma {:induction false} MatchesIsAccepts(filter: seq<string>, topic: seq<string>)
    ensures Matches(filter, topic) <==> Accepts(FilterPattern(filter), topic)
  {
    if filter != [] && filter[0] != "#" && topic != [] {
      MatchesIsAccepts(filter[1..], topic[1..]);
      var p, rest := FilterPattern(filter), FilterPattern(filter[1..]);
      if Accepts(p, topic) {
        forall i | 0 <= i < |rest.levels| ensures Fits(rest.levels[i], topic[1..][i]) {
          assert Fits(p.levels[i + 1], topic[i + 1]);
        }
      }
    }
  }

  /** Every topic has at least one level, so one leading open `+` level adds nothing. */
  predicate AcceptsEverything(p: Pattern) {
    p.open && (p.levels == [] || p.levels == [Any])
  }

  ghost predicate SameTopics(p: Pattern, q: Pattern) {
    forall topic: string :: Accepts(p, Split(topic)) == Accepts(q, Split(topic))
  }

  /** A topic accepted by `p` that shows `x` at every free level. */
  function Sample(p: Pattern, x: string): (t: seq<string>)
    ensures |t| == |p.levels| && Accepts(p, t)
  {
    seq(|p.levels|, i requires 0 <= i < |p.levels| => if p.levels[i] == Any then x else p.levels[i].text)
  }

  predicate SlashFree(p: Pattern) {
    forall l <- p.levels :: l.Lit? ==> '/' !in l.text
  }

  lemma SameOn(p: Pattern, q: Pattern, topic: seq<string>)
    requires SameTopics(p, q)
    requires |topic| >= 1 && forall l <- topic :: '/' !in l
    ensures Accepts(p, topic) == Accepts(q, topic)
  {
    SplitJoin(topic);
    var text := Join(topic);
    assert Accepts(p, Split(text)) == Accepts(q, Split(text));
  }

  /** Two patterns that accept the same topics are equal, or both accept everything. */
  lemma PatternsDecided(p: Pattern, q: Pattern)
    requires SlashFree(p) && SlashFree(q)
    ensures SameTopics(p, q) <==> p == q || (AcceptsEverything(p) && AcceptsEverything(q))
  {
    if SameTopics(p, q) {
      if |p.levels| == 0 {
        AgainstEmpty(p, q);
      } else if |q.levels| == 0 {
        AgainstEmpty(q, p);
      } else {
        SameLength(p, q);
        SameLevels(p, q);
        SameLevels(q, p);
        assert p.levels == q.levels;
      }
    }
  }

  lemma SameLength(p: Pattern, q: Pattern)
    requires SlashFree(p) && SlashFree(q) && SameTopics(p, q)
    requires |p.levels| > 0 && |q.levels| > 0
    ensures |p.levels| == |q.levels| && p.open == q.open
  {
    SameOn(p, q, Sample(p, ""));
    SameOn(p, q, Sample(q, ""));
    SameOn(p, q, Sample(p, "") + [""]);
    assert Accepts(p, Sample(p, "") + [""]) == p.open;
  }

  lemma SameLevels(p: Pattern, q: Pattern)
    requires SlashFree(p) && SlashFree(q) && SameTopics(p, q)
    requires |p.levels| == |q.levels| > 0 && p.open == q.open
    ensures forall i | 0 <= i < |p.levels| :: p.levels[i].Lit? ==> q.levels[i] == p.levels[i]
  {
    forall i | 0 <= i < |p.levels| && p.levels[i].Lit? ensures q.levels[i] == p.levels[i] {
      var other := if p.levels[i].text == "" then "x" else "";
      var t := Sample(q, other);
      SameOn(p, q, t);
      assert Fits(p.levels[i], t[i]);
    }
  }

  /** A pattern without levels is matched only by one that accepts everything too. */
  lemma AgainstEmpty(p: Pattern, q: Pattern)
    requires SlashFree(q) && SameTopics(p, q) && p.levels == []
    ensures p == q || (AcceptsEverything(p) && AcceptsEverything(q))
  {
    SameOn(p, q, [""]);
    SameOn(p, q, ["x"]);
    SameOn(p, q, ["", ""]);
    if |q.levels| > 0 {
      SameOn(p, q, Sample(q, ""));
      assert Fits(q.levels[0], [""][0]) && Fits(q.levels[0], ["x"][0]);
      assert q.levels == [Any];
    } else {
      assert Accepts(p, [""]) == p.open && Accepts(q, [""]) == q.open;
    }
  }
}
