/** Snapshots of flows: the difference of two, and the store that keeps the newest ones. */
module FlowDiffs {
  import opened Options
  import opened JsonValues

  /** Nodes by id. */
  type NodeMap = map<string, Json>

  datatype FieldChange = FieldChange(from: Json, to: Json)

  type Changes = map<string, FieldChange>

  // ---- What a difference is -------------------------------------------------

  /** A missing field counts as null. */
  function Value(node: Json, key: string): Json {
    if node.Obj? && key in node.fields then node.fields[key] else Null
  }

  /** A value other than null is the field's own; null stands for a missing field as well. */
  lemma ValueIff(node: Json, key: string, v: Json)
    ensures Value(node, key) == v <==>
              || (node.Obj? && key in node.fields && node.fields[key] == v)
              || (v == Null && (!node.Obj? || key !in node.fields))
  {
  }

  /** Two nodes that differ only in null fields. */
  ghost predicate SameNode(a: Json, b: Json) {
    forall key :: Value(a, key) == Value(b, key)
  }

  /** The changed fields, with both values. */
  ghost predicate IsFieldDiff(a: Json, b: Json, changes: Changes) {
    forall key ::
      && (key in changes <==> Value(a, key) != Value(b, key))
      && (key in changes ==> changes[key] == FieldChange(Value(a, key), Value(b, key)))
  }

  datatype Diff = Diff(added: NodeMap, removed: NodeMap, modified: map<string, Changes>)

  ghost predicate IsDiff(a: NodeMap, b: NodeMap, d: Diff) {
    && d.added == b - a.Keys
    && d.removed == a - b.Keys
    && (forall id <- d.modified ::
          id in a && id in b && d.modified[id] != map[] && IsFieldDiff(a[id], b[id], d.modified[id]))
    && (forall id | id in a && id in b :: id in d.modified || SameNode(a[id], b[id]))
  }

  // ---- What it is good for --------------------------------------------------

  function PatchNode(node: Json, changes: Changes): Json
    requires node.Obj?
  {
    Obj(node.fields + map key | key in changes :: changes[key].to)
  }

  /** Carries out a difference. */
  function Patch(a: NodeMap, d: Diff): NodeMap
    requires forall id <- a :: a[id].Obj?
  {
    (map id | id in a && id !in d.removed :: if id in d.modified then PatchNode(a[id], d.modified[id]) else a[id])
    + d.added
  }

  ghost predicate SameNodes(a: NodeMap, b: NodeMap) {
    a.Keys == b.Keys && forall id <- a :: SameNode(a[id], b[id])
  }

  lemma PatchedNode(a: Json, b: Json, changes: Changes)
    requires a.Obj? && IsFieldDiff(a, b, changes)
    ensures SameNode(PatchNode(a, changes), b)
  {
    forall key ensures Value(PatchNode(a, changes), key) == Value(b, key) {
      assert key in changes <==> Value(a, key) != Value(b, key);
    }
  }

  /** Carrying out the difference of two snapshots on the first gives the second. */
  lemma PatchGivesSecond(a: NodeMap, b: NodeMap, d: Diff)
    requires IsDiff(a, b, d) && forall id <- a :: a[id].Obj?
    ensures SameNodes(Patch(a, d), b)
  {
    hide PatchNode, IsFieldDiff;
    var p := Patch(a, d);
    assert p.Keys == b.Keys;
    forall id | id in p ensures SameNode(p[id], b[id]) {
      if id in d.modified {
        PatchedNode(a[id], b[id], d.modified[id]);
      }
    }
  }

  /** The empty difference means the same nodes, and the other way round. */
  lemma EmptyIffSame(a: NodeMap, b: NodeMap, d: Diff)
    requires IsDiff(a, b, d)
    ensures d == Diff(map[], map[], map[]) <==> SameNodes(a, b)
  {
    forall id | id in d.modified ensures !SameNode(a[id], b[id]) {
      NotSame(a[id], b[id], d.modified[id]);
    }
    assert forall id :: id in d.added <==> id in b && id !in a;
    assert forall id :: id in d.removed <==> id in a && id !in b;
    if SameNodes(a, b) {
      assert d.added == map[] && d.removed == map[] && d.modified == map[];
    }
  }

  function Swapped(changes: Changes): Changes {
    map key | key in changes :: FieldChange(changes[key].to, changes[key].from)
  }

  /** The difference read backwards. */
  function Mirror(d: Diff): Diff {
    Diff(d.removed, d.added, map id | id in d.modified :: Swapped(d.modified[id]))
  }

  lemma FieldDiffSwaps(a: Json, b: Json, changes: Changes)
    requires IsFieldDiff(a, b, changes)
    ensures IsFieldDiff(b, a, Swapped(changes)) && (changes != map[] ==> Swapped(changes) != map[])
  {
    if changes != map[] {
      var key :| key in changes;
      assert key in Swapped(changes);
    }
  }

  /** Two snapshots have one difference, and swapping them mirrors it. */
  lemma DiffUnique(a: NodeMap, b: NodeMap, d: Diff, e: Diff)
    requires IsDiff(a, b, d) && IsDiff(a, b, e)
    ensures d == e
  {
    forall id ensures id in d.modified <==> id in e.modified {
      if id in d.modified { NotSame(a[id], b[id], d.modified[id]); }
      if id in e.modified { NotSame(a[id], b[id], e.modified[id]); }
    }
    forall id | id in d.modified ensures d.modified[id] == e.modified[id] {
      FieldDiffUnique(a[id], b[id], d.modified[id], e.modified[id]);
    }
    assert d.modified == e.modified;
  }

  lemma NotSame(a: Json, b: Json, changes: Changes)
    requires IsFieldDiff(a, b, changes) && changes != map[]
    ensures !SameNode(a, b)
  {
    var key :| key in changes;
    assert Value(a, key) != Value(b, key);
  }

  lemma FieldDiffUnique(a: Json, b: Json, c: Changes, e: Changes)
    requires IsFieldDiff(a, b, c) && IsFieldDiff(a, b, e)
    ensures c == e
  {
    assert forall key :: key in c <==> key in e;
  }

  lemma DiffMirrors(a: NodeMap, b: NodeMap, d: Diff, e: Diff)
    requires IsDiff(a, b, d) && IsDiff(b, a, e)
    ensures e == Mirror(d)
  {
    forall id | id in d.modified { FieldDiffSwaps(a[id], b[id], d.modified[id]); }
    forall id | id in b && id in a ensures id in Mirror(d).modified || SameNode(b[id], a[id]) {
      if id !in d.modified { assert SameNode(a[id], b[id]); }
    }
    DiffUnique(b, a, Mirror(d), e);
  }

  // ---- Computing it ---------------------------------------------------------

  /** The nodes with a text id; of nodes with one id the last counts. */
  function BuildNodeMap(flows: seq<Json>): (m: NodeMap)
    ensures forall id <- m :: m[id] in flows && IdOf(m[id]) == Some(id)
    ensures forall n <- flows :: IdOf(n).Some? ==> IdOf(n).value in m
  {
    if flows == [] then map[]
    else
      var m, last := BuildNodeMap(flows[..|flows| - 1]), flows[|flows| - 1];
      assert flows == flows[..|flows| - 1] + [last];
      if IdOf(last).Some? then m[IdOf(last).value := last] else m
  }

  /** Of nodes with one id the last one is held. */
  lemma {:induction false} HoldsLast(flows: seq<Json>, id: string, i: nat)
    requires i < |flows| && IdOf(flows[i]) == Some(id)
    requires forall j | i < j < |flows| :: IdOf(flows[j]) != Some(id)
    ensures id in BuildNodeMap(flows) && BuildNodeMap(flows)[id] == flows[i]
  {
    if i < |flows| - 1 {
      HoldsLast(flows[..|flows| - 1], id, i);
    }
  }

  method DiffNodeFields(old': Json, new': Json) returns (changes: Changes)
    requires old'.Obj? && new'.Obj?
    ensures IsFieldDiff(old', new', changes)
  {
    changes := map[];
    var todo := old'.fields.Keys + new'.fields.Keys;
    while todo != {}
      invariant todo <= old'.fields.Keys + new'.fields.Keys
      invariant forall key :: key in changes <==> key !in todo && Value(old', key) != Value(new', key)
      invariant forall key <- changes :: changes[key] == FieldChange(Value(old', key), Value(new', key))
    {
      var key :| key in todo;
      todo := todo - {key};
      if Value(old', key) != Value(new', key) {
        changes := changes[key := FieldChange(Value(old', key), Value(new', key))];
      }
    }
  }

  /** The three lists are filled id by id; here they are kept by id. */
  method ComputeDiff(from: seq<Json>, to: seq<Json>) returns (d: Diff)
    ensures IsDiff(BuildNodeMap(from), BuildNodeMap(to), d)
  {
    var a, b := BuildNodeMap(from), BuildNodeMap(to);
    d := DiffNodeMaps(a, b);
  }

  /** The loop over the ids of both snapshots. */
  method DiffNodeMaps(a: NodeMap, b: NodeMap) returns (d: Diff)
    requires (forall id <- a :: a[id].Obj?) && forall id <- b :: b[id].Obj?
    ensures IsDiff(a, b, d)
  {
    d := Diff(map[], map[], map[]);
    var todo := a.Keys + b.Keys;
    assert DiffOutside(a, b, todo, d);
    hide DiffOutside, IsFieldDiff, IsDiff;
    while todo != {}
      invariant todo <= a.Keys + b.Keys
      invariant DiffOutside(a, b, todo, d)
    {
      var id :| id in todo;
      assert todo == (todo - {id}) + {id};
      todo := todo - {id};
      if id !in a {
        AddNode(a, b, todo, d, id);
        d := d.(added := d.added[id := b[id]]);
      } else if id !in b {
        RemoveNode(a, b, todo, d, id);
        d := d.(removed := d.removed[id := a[id]]);
      } else {
        var changes := DiffNodeFields(a[id], b[id]);
        ModifyNode(a, b, todo, d, id, changes);
        if changes != map[] {
          d := d.(modified := d.modified[id := changes]);
        }
      }
    }
    DiffComplete(a, b, d);
  }

  /** The difference of the ids not in `todo`. */
  ghost predicate DiffOutside(a: NodeMap, b: NodeMap, todo: set<string>, d: Diff) {
    && d.added == (b - a.Keys) - todo
    && d.removed == (a - b.Keys) - todo
    && (forall id <- d.modified ::
          id in a && id in b && id !in todo && d.modified[id] != map[] && IsFieldDiff(a[id], b[id], d.modified[id]))
    && (forall id | id in a && id in b :: id in todo || id in d.modified || SameNode(a[id], b[id]))
  }

  lemma AddNode(a: NodeMap, b: NodeMap, todo: set<string>, d: Diff, id: string)
    requires DiffOutside(a, b, todo + {id}, d) && id !in todo && id in b && id !in a
    ensures DiffOutside(a, b, todo, d.(added := d.added[id := b[id]]))
  {
    assert d.added[id := b[id]] == (b - a.Keys) - todo;
  }

  lemma RemoveNode(a: NodeMap, b: NodeMap, todo: set<string>, d: Diff, id: string)
    requires DiffOutside(a, b, todo + {id}, d) && id !in todo && id in a && id !in b
    ensures DiffOutside(a, b, todo, d.(removed := d.removed[id := a[id]]))
  {
    assert d.removed[id := a[id]] == (a - b.Keys) - todo;
  }

  lemma ModifyNode(a: NodeMap, b: NodeMap, todo: set<string>, d: Diff, id: string, changes: Changes)
    requires DiffOutside(a, b, todo + {id}, d) && id !in todo && id in a && id in b
               && IsFieldDiff(a[id], b[id], changes)
    ensures DiffOutside(a, b, todo, if changes == map[] then d else d.(modified := d.modified[id := changes]))
  {
    assert changes == map[] ==> SameNode(a[id], b[id]);
    assert (b - a.Keys) - todo == (b - a.Keys) - (todo + {id});
    assert (a - b.Keys) - todo == (a - b.Keys) - (todo + {id});
  }

  lemma DiffComplete(a: NodeMap, b: NodeMap, d: Diff)
    requires DiffOutside(a, b, {}, d)
    ensures IsDiff(a, b, d)
  {
    assert (b - a.Keys) - {} == b - a.Keys && (a - b.Keys) - {} == a - b.Keys;
  }
}

/** The store of numbered snapshots. */
module FlowVersions {
  import opened Options
  import opened Sequences
  import opened JsonValues

  /** The id is the number that the file name spells. */
  datatype VersionMeta = VersionMeta(id: nat, timestamp: string, user: Option<string>, checksum: string, nodeCount: nat)

  /** The last `n` elements. */
  function Newest<T>(s: seq<T>, n: nat): seq<T> {
    if |s| <= n then s else s[|s| - n..]
  }

  predicate Listed(metas: seq<VersionMeta>, id: nat) {
    exists m <- metas :: m.id == id
  }

  /** Of entries numbered without gaps, the first ones have the lowest numbers. */
  lemma NumbersListed(metas: seq<VersionMeta>, base: nat, count: nat)
    requires count <= |metas| && forall i | 0 <= i < |metas| :: metas[i].id == base + i + 1
    ensures forall id: nat :: Listed(metas[..count], id) <==> base < id <= base + count
  {
    forall id: nat | base < id <= base + count ensures Listed(metas[..count], id) {
      assert metas[..count][id - base - 1].id == id;
    }
  }

  type History = seq<(VersionMeta, seq<Json>)>

  /** Snapshots are numbered without gaps. With a limit of zero nothing is kept, and numbering starts
      over each time. */
  ghost predicate Numbered(max: nat, history: History) {
    forall i | 0 <= i < |history| :: history[i].0.id == if max == 0 then 1 else i + 1
  }

  /** The index lists exactly the newest snapshots, */
  ghost predicate KeepsNewest(max: nat, history: History, index: seq<VersionMeta>) {
    && |index| == (if |history| <= max then |history| else max)
    && forall i | 0 <= i < |index| :: index[i] == history[|history| - |index| + i].0
  }

  /** and the files are exactly theirs. */
  ghost predicate FilesOf(history: History, kept: nat, files: map<nat, seq<Json>>) {
    && kept <= |history|
    && (forall id :: id in files <==> |history| - kept < id <= |history|)
    && (forall id <- files :: files[id] == history[id - 1].1)
  }

  function NextId(index: seq<VersionMeta>): nat {
    if index == [] then 1 else index[|index| - 1].id + 1
  }

  lemma SavedIndex(max: nat, history: History, index: seq<VersionMeta>, meta: VersionMeta, flows: seq<Json>)
    requires Numbered(max, history) && KeepsNewest(max, history, index) && meta.id == NextId(index)
    ensures Numbered(max, history + [(meta, flows)])
    ensures KeepsNewest(max, history + [(meta, flows)], Newest(index + [meta], max))
  {
    var history', index' := history + [(meta, flows)], Newest(index + [meta], max);
    forall i | 0 <= i < |index'| ensures index'[i] == history'[|history'| - |index'| + i].0 {
      var k := |index| + 1 - |index'| + i;
      assert index'[i] == (index + [meta])[k];
    }
  }

  lemma SavedFiles(max: nat, history: History, index: seq<VersionMeta>, files: map<nat, seq<Json>>,
                   meta: VersionMeta, flows: seq<Json>, files': map<nat, seq<Json>>)
    requires Numbered(max, history) && KeepsNewest(max, history, index) && FilesOf(history, |index|, files)
    requires meta.id == NextId(index)
    requires var all := index + [meta]; var gone := |all| - |Newest(all, max)|;
             && (forall id :: id in files' <==> id in files[meta.id := flows] && !Listed(all[..gone], id))
             && (forall id <- files' :: files'[id] == files[meta.id := flows][id])
    ensures FilesOf(history + [(meta, flows)], |Newest(index + [meta], max)|, files')
  {
    var all, base := index + [meta], Base(max, history, index);
    AllNumbered(max, history, index, meta);
    NumbersListed(all, base, |all| - |Newest(all, max)|);
    hide Listed, NextId, Numbered, KeepsNewest;
    FilesNumbered(history, |index|, files, meta.id, flows, base, |Newest(all, max)|, files', max == 0);
    assert forall i | 0 <= i < |history| :: (history + [(meta, flows)])[i] == history[i];
  }

  ghost function Base(max: nat, history: History, index: seq<VersionMeta>): nat {
    if max == 0 || |history| < |index| then 0 else |history| - |index|
  }

  lemma AllNumbered(max: nat, history: History, index: seq<VersionMeta>, meta: VersionMeta)
    requires Numbered(max, history) && KeepsNewest(max, history, index) && meta.id == NextId(index)
    ensures forall i | 0 <= i < |index + [meta]| :: (index + [meta])[i].id == Base(max, history, index) + i + 1
    ensures meta.id == if max == 0 then 1 else |history| + 1
    ensures max == 0 ==> |index| == 0
    ensures |Newest(index + [meta], max)| <= |index| + 1
  {
    var all := index + [meta];
    forall i | 0 <= i < |all| ensures all[i].id == Base(max, history, index) + i + 1 {
      if i < |index| { assert all[i] == history[|history| - |index| + i].0; }
    }
  }

  lemma FilesNumbered(history: History, kept: nat, files: map<nat, seq<Json>>, id': nat, flows: seq<Json>, base: nat,
                      kept': nat, files': map<nat, seq<Json>>, none: bool)
    requires FilesOf(history, kept, files) && kept' <= kept + 1
    requires if none then kept == 0 && kept' == 0 && id' == 1 && base == 0
             else id' == |history| + 1 && base == |history| - kept
    requires forall id :: id in files' <==> id in files[id' := flows] && !(base < id <= base + (kept + 1 - kept'))
    requires forall id <- files' :: files'[id] == files[id' := flows][id]
    ensures forall id :: id in files' <==> |history| + 1 - kept' < id <= |history| + 1
    ensures forall id <- files' :: files'[id] == if id == |history| + 1 then flows else history[id - 1].1
  {
    assert forall id :: id in files[id' := flows] <==> id in files || id == id';
  }

  class FlowVersionStore {
    const enabled: bool
    const maxVersions: nat
    const hash: seq<Json> -> string
    var index: seq<VersionMeta>
    var files: map<nat, seq<Json>>
    /** Every snapshot ever saved, in order. */
    ghost var history: History

    ghost predicate Valid()
      reads this
    {
      Numbered(maxVersions, history) && KeepsNewest(maxVersions, history, index) && FilesOf(history, |index|, files)
    }

    constructor (enabled: bool, maxVersions: nat, hash: seq<Json> -> string)
      ensures Valid() && this.enabled == enabled && this.maxVersions == maxVersions && this.hash == hash
                && history == []
    {
      this.enabled, this.maxVersions, this.hash := enabled, maxVersions, hash;
      index, files, history := [], map[], [];
    }

    /** Adds a snapshot and forgets the oldest ones beyond the limit; none when versioning is off. */
    method SaveVersion(flows: seq<Json>, user: Option<string>, now: string) returns (id: Option<nat>)
      requires Valid()
      modifies this
      ensures Valid() && (id.Some? <==> enabled)
      ensures !enabled ==> unchanged(this)
      ensures enabled ==>
                && id.value == (if maxVersions == 0 then 1 else |history|)
                && var meta := VersionMeta(id.value, now, user, hash(flows), |flows|);
                && history == old(history) + [(meta, flows)] && index == Newest(old(index) + [meta], maxVersions)
    {
      if !enabled {
        return None;
      }
      var next := NextId(index);
      files := files[next := flows];
      var meta := VersionMeta(next, now, user, hash(flows), |flows|);
      history := history + [(meta, flows)];
      index := index + [meta];
      PruneOldVersions();
      SavedIndex(maxVersions, old(history), old(index), meta, flows);
      SavedFiles(maxVersions, old(history), old(index), old(files), meta, flows, files);
      id := Some(next);
    }

    /** Removes the oldest entries and their files. */
    method PruneOldVersions()
      modifies this`index, this`files
      ensures index == Newest(old(index), maxVersions)
      ensures forall id :: id in files <==> id in old(files) && !Listed(old(index)[..|old(index)| - |index|], id)
      ensures forall id <- files :: files[id] == old(files)[id]
    {
      if |index| <= maxVersions {
        return;
      }
      var toRemove := |index| - maxVersions;
      var kept := files;
      for i := 0 to toRemove
        invariant forall id :: id in kept <==> id in files && !Listed(index[..i], id)
        invariant forall id <- kept :: kept[id] == files[id]
      {
        assert index[..i + 1] == index[..i] + [index[i]];
        kept := kept - {index[i].id};
      }
      files := kept;
      index := index[toRemove..];
    }

    /** A page of the newest-first list; pages start at zero. */
    method ListVersions(page: nat, perPage: nat) returns (metas: seq<VersionMeta>)
      ensures metas == Page(Reversed(index), page, perPage)
    {
      var reversed := Reversed(index);
      var start := page * perPage;
      if start >= |reversed| {
        return [];
      }
      var end := if start + perPage <= |reversed| then start + perPage else |reversed|;
      metas := reversed[start..end];
    }

    /** A snapshot that is still kept comes back as it was saved. */
    method GetVersion(id: nat) returns (r: Option<(VersionMeta, seq<Json>)>)
      requires Valid()
      ensures r.Some? <==> |history| - |index| < id <= |history|
      ensures r.Some? ==> r.value == history[id - 1]
    {
      ghost var place := id - 1 - (|history| - |index|);
      assert 0 <= place < |index| ==> index[place].id == id;
      for i := 0 to |index|
        invariant forall k | 0 <= k < i :: index[k].id != id
      {
        if index[i].id == id {
          return if id in files then Some((index[i], files[id])) else None;
        }
      }
      return None;
    }
  }

  // ---- Pages ----------------------------------------------------------------

  function Page<T>(s: seq<T>, page: nat, perPage: nat): seq<T> {
    var start := page * perPage;
    if start >= |s| then []
    else if start + perPage <= |s| then s[start..start + perPage]
    else s[start..]
  }

  function FirstPages<T>(s: seq<T>, count: nat, perPage: nat): seq<T> {
    if count == 0 then [] else FirstPages(s, count - 1, perPage) + Page(s, count - 1, perPage)
  }

  /** Pages follow each other without gap or repetition. */
  lemma {:induction false} PagesConcatenate<T>(s: seq<T>, count: nat, perPage: nat)
    ensures FirstPages(s, count, perPage) == if count * perPage <= |s| then s[..count * perPage] else s
  {
    if count > 0 {
      PagesConcatenate(s, count - 1, perPage);
      assert count * perPage == (count - 1) * perPage + perPage;
    }
  }

  /** Enough pages give the whole list. */
  lemma AllPages<T>(s: seq<T>, perPage: nat)
    requires perPage >= 1
    ensures FirstPages(s, |s|, perPage) == s
  {
    PagesConcatenate(s, |s|, perPage);
    assert |s| <= |s| * perPage;
  }
}
