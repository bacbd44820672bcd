/** The plugin store of the marketplace: four maps that must tell one story. */
module Marketplace {
  import opened Options

  datatype Credit = Credit(author: string, category: string, license: string)

  datatype About = About(description: string, tags: seq<string>, nodeTypes: seq<string>, permissions: seq<string>)

  datatype Metadata = Metadata(name: string, version: string, credit: Credit, about: About)

  datatype VersionRecord = VersionRecord(checksum: string, size: nat)

  datatype PluginRecord = PluginRecord(
    name: string, credit: Credit, about: About, versions: map<string, VersionRecord>, downloads: nat)

  datatype Rating = Rating(total: nat, count: nat)

  datatype Error =
    | NotFound
    | VersionNotFound
    | VersionConflict
    | InvalidSemver
    | VersionNotNewer
    | PluginTooLarge
    | BadRequest
    | Internal

  datatype Result<T> = Ok(value: T) | Err(error: Error)

  // ---- Binary keys ----------------------------------------------------------

  /** The key of a binary. */
  function Key(id: string, version: string): (k: string) {
    id + "@" + version
  }

  /** A key with one separator in its parts' seam comes from one pair only, whatever the other pair holds. */
  lemma KeyInjective(id: string, version: string, otherId: string, otherVersion: string)
    requires '@' !in id && '@' !in version
    ensures Key(id, version) == Key(otherId, otherVersion) <==> id == otherId && version == otherVersion
  {
    var k, k' := Key(id, version), Key(otherId, otherVersion);
    assert forall i | 0 <= i < |k| :: k[i] == '@' ==> i == |id|;
    assert k'[|otherId|] == '@';
    if k == k' {
      assert |id| == |otherId|;
      assert k[..|id|] == id && k'[..|id|] == otherId;
      assert k[|id| + 1..] == version && k'[|id| + 1..] == otherVersion;
    }
  }

  // ---- Version order --------------------------------------------------------

  /** Which texts are semantic versions, and how these are ordered. */
  datatype Semver = Semver(valid: string -> bool, leq: (string, string) -> bool) {
    /** No version holds the separator of the binary keys, and the order is total. */
    ghost predicate Sound() {
      && (forall s {:trigger valid(s)} :: valid(s) ==> '@' !in s)
      && (forall a, b | valid(a) && valid(b) :: leq(a, b) || leq(b, a))
      && (forall a, b, c | valid(a) && valid(b) && valid(c) :: leq(a, b) && leq(b, c) ==> leq(a, c))
    }
  }

  /** The greatest of the texts that are versions. */
  method Greatest(semver: Semver, versions: set<string>) returns (m: Option<string>)
    requires semver.Sound()
    ensures m.None? <==> forall s <- versions :: !semver.valid(s)
    ensures m.Some? ==> m.value in versions && semver.valid(m.value)
    ensures m.Some? ==> forall s <- versions :: semver.valid(s) ==> semver.leq(s, m.value)
  {
    m := None;
    var left := versions;
    while left != {}
      invariant left <= versions
      invariant m.None? <==> forall s <- versions - left :: !semver.valid(s)
      invariant m.Some? ==> m.value in versions && semver.valid(m.value)
      invariant m.Some? ==> forall s <- versions - left :: semver.valid(s) ==> semver.leq(s, m.value)
    {
      var s :| s in left;
      ghost var seen := versions - left;
      if semver.valid(s) && (m.None? || semver.leq(m.value, s)) {
        m := Some(s);
      }
      left := left - {s};
      assert versions - left == seen + {s};
    }
    assert versions - left == versions;
  }

  // ---- Store ----------------------------------------------------------------

  /** The name index inverts the plugin table, and no plugin is without versions. */
  ghost predicate NamesInvert(plugins: map<string, PluginRecord>, names: map<string, string>) {
    && (forall n <- names :: names[n] in plugins && plugins[names[n]].name == n)
    && (forall id <- plugins :: plugins[id].name in names && names[plugins[id].name] == id)
    && (forall id <- plugins :: plugins[id].versions != map[] && '@' !in id)
  }

  ghost predicate OnRecord(plugins: map<string, PluginRecord>, id: string, version: string) {
    id in plugins && version in plugins[id].versions
  }

  ghost predicate KeyOnRecord(plugins: map<string, PluginRecord>, k: string) {
    exists id, version :: OnRecord(plugins, id, version) && k == Key(id, version)
  }

  /** Binaries are kept for exactly the versions on record, with the recorded size and checksum. */
  ghost predicate BinariesMatch(plugins: map<string, PluginRecord>, binaries: map<string, seq<bv8>>, semver: Semver,
                                hash: seq<bv8> -> string) {
    && (forall k <- binaries :: KeyOnRecord(plugins, k))
    && (forall id, version | OnRecord(plugins, id, version) ::
          && semver.valid(version)
          && Key(id, version) in binaries
          && plugins[id].versions[version] ==
              VersionRecord(hash(binaries[Key(id, version)]), |binaries[Key(id, version)]|))
  }

  /** Ratings are for plugins that are there, and each was between one and five. */
  ghost predicate RatingsMatch(plugins: map<string, PluginRecord>, ratings: map<string, Rating>) {
    forall id <- ratings :: id in plugins && 1 <= ratings[id].count <= ratings[id].total <= 5 * ratings[id].count
  }

  /** What the store offers: the binary of each version of each named plugin. */
  type Shelf = map<(string, string), seq<bv8>>

  /** The four maps offer exactly this shelf. */
  ghost predicate Offers(plugins: map<string, PluginRecord>, names: map<string, string>,
                         binaries: map<string, seq<bv8>>, shelf: Shelf) {
    && (forall p <- shelf :: p.0 in names && OnRecord(plugins, names[p.0], p.1) && Key(names[p.0], p.1) in binaries
                             && binaries[Key(names[p.0], p.1)] == shelf[p])
    && (forall id, version | OnRecord(plugins, id, version) :: (plugins[id].name, version) in shelf)
  }

  /** A record with one more version; what is fixed at first publication and the downloads stay. */
  function WithVersion(record: Option<PluginRecord>, meta: Metadata, version: VersionRecord): (r: PluginRecord)
    ensures r.versions == (if record.Some? then record.value.versions else map[])[meta.version := version]
  {
    match record
    case Some(p) => p.(about := meta.about, versions := p.versions[meta.version := version])
    case None => PluginRecord(meta.name, meta.credit, meta.about, map[meta.version := version], 0)
  }

  /** A first publication takes everything from the metadata. */
  lemma NewRecordIs(meta: Metadata, version: VersionRecord)
    ensures var r := WithVersion(None, meta, version);
            r.name == meta.name && r.credit == meta.credit && r.about == meta.about && r.downloads == 0
            && r.versions == map[meta.version := version]
  {
  }

  /** A later one may change the description, the tags, the node types and the permissions. */
  lemma UpdatedRecordIs(old': PluginRecord, meta: Metadata, version: VersionRecord)
    ensures var r := WithVersion(Some(old'), meta, version);
            r.name == old'.name && r.credit == old'.credit && r.about == meta.about && r.downloads == old'.downloads
            && r.versions == old'.versions[meta.version := version]
  {
  }

  function Lookup(plugins: map<string, PluginRecord>, id: string): (p: Option<PluginRecord>) {
    if id in plugins then Some(plugins[id]) else None
  }

  /** Where a plugin may be put: its own id, or an unused one for a new name. */
  ghost predicate PlaceFor(plugins: map<string, PluginRecord>, names: map<string, string>, name: string, id: string) {
    '@' !in id && if name in names then names[name] == id else id !in plugins
  }

  lemma PutNames(plugins: map<string, PluginRecord>, names: map<string, string>, meta: Metadata, id: string,
                 v: VersionRecord)
    requires NamesInvert(plugins, names) && PlaceFor(plugins, names, meta.name, id)
    ensures NamesInvert(plugins[id := WithVersion(Lookup(plugins, id), meta, v)], names[meta.name := id])
  {
    var record := WithVersion(Lookup(plugins, id), meta, v);
    assert meta.version in record.versions && record.name == meta.name;
  }

  lemma PutBinaries(plugins: map<string, PluginRecord>, binaries: map<string, seq<bv8>>, semver: Semver,
                    hash: seq<bv8> -> string,
                    meta: Metadata, id: string, bytes: seq<bv8>)
    requires BinariesMatch(plugins, binaries, semver, hash) && semver.Sound() && semver.valid(meta.version)
               && '@' !in id
    ensures BinariesMatch(plugins[id := WithVersion(Lookup(plugins, id), meta, VersionRecord(hash(bytes), |bytes|))],
                          binaries[Key(id, meta.version) := bytes], semver, hash)
  {
    hide Key;
    var v := VersionRecord(hash(bytes), |bytes|);
    var plugins' := plugins[id := WithVersion(Lookup(plugins, id), meta, v)];
    var key := Key(id, meta.version);
    var binaries' := binaries[key := bytes];
    forall k <- binaries' ensures KeyOnRecord(plugins', k) {
      if k == key {
        assert OnRecord(plugins', id, meta.version);
      } else {
        var i, w :| OnRecord(plugins, i, w) && k == Key(i, w);
        assert OnRecord(plugins', i, w);
      }
    }
    forall i, w | OnRecord(plugins', i, w)
      ensures && semver.valid(w) && Key(i, w) in binaries'
              && plugins'[i].versions[w] == VersionRecord(hash(binaries'[Key(i, w)]), |binaries'[Key(i, w)]|)
    {
      KeyInjective(id, meta.version, i, w);
      if i != id || w != meta.version {
        assert OnRecord(plugins, i, w);
      }
    }
  }

  lemma PutOffers(plugins: map<string, PluginRecord>, names: map<string, string>, binaries: map<string, seq<bv8>>,
                  shelf: Shelf,
                  semver: Semver, meta: Metadata, id: string, v: VersionRecord, bytes: seq<bv8>)
    requires NamesInvert(plugins, names) && PlaceFor(plugins, names, meta.name, id)
    requires Offers(plugins, names, binaries, shelf) && semver.Sound() && semver.valid(meta.version)
    ensures Offers(plugins[id := WithVersion(Lookup(plugins, id), meta, v)], names[meta.name := id],
                   binaries[Key(id, meta.version) := bytes], shelf[(meta.name, meta.version) := bytes])
  {
    hide Key;
    var plugins', names' := plugins[id := WithVersion(Lookup(plugins, id), meta, v)], names[meta.name := id];
    var key := Key(id, meta.version);
    var binaries', shelf' := binaries[key := bytes], shelf[(meta.name, meta.version) := bytes];
    forall p <- shelf'
      ensures && p.0 in names' && OnRecord(plugins', names'[p.0], p.1) && Key(names'[p.0], p.1) in binaries'
              && binaries'[Key(names'[p.0], p.1)] == shelf'[p]
    {
      if p != (meta.name, meta.version) {
        assert OnRecord(plugins, names[p.0], p.1);
        assert plugins[names[p.0]].name == p.0;
        KeyInjective(id, meta.version, names[p.0], p.1);
      }
    }
    forall i, w | OnRecord(plugins', i, w) ensures (plugins'[i].name, w) in shelf' {
      if i != id || w != meta.version {
        assert OnRecord(plugins, i, w);
      }
    }
  }

  /** A record without one version; none when it was the last. */
  function WithoutVersion(plugins: map<string, PluginRecord>, id: string,
                          version: string): (r: map<string, PluginRecord>)
    requires id in plugins
    ensures forall i, w :: OnRecord(r, i, w) <==> OnRecord(plugins, i, w) && (i != id || w != version)
  {
    var left := plugins[id].versions - {version};
    assert forall w <- plugins[id].versions :: w != version ==> w in left;
    if left == map[] then plugins - {id} else plugins[id := plugins[id].(versions := left)]
  }

  /** Nothing else is touched: not the other plugins, and of this one only the version, or all of it. */
  lemma WithoutVersionIs(plugins: map<string, PluginRecord>, id: string, version: string)
    requires id in plugins
    ensures var r := WithoutVersion(plugins, id, version);
            && r - {id} == plugins - {id}
            && (id !in r <==> plugins[id].versions.Keys <= {version})
            && (id in r ==> r[id] == plugins[id].(versions := plugins[id].versions - {version}))
  {
    var left := plugins[id].versions - {version};
    assert left.Keys == plugins[id].versions.Keys - {version};
    assert left == map[] <==> left.Keys == {};
  }

  lemma DropNames(plugins: map<string, PluginRecord>, names: map<string, string>, id: string, version: string)
    requires NamesInvert(plugins, names) && id in plugins
    ensures var plugins' := WithoutVersion(plugins, id, version);
            NamesInvert(plugins', if id in plugins' then names else names - {plugins[id].name})
  {
  }

  lemma DropBinaries(plugins: map<string, PluginRecord>, names: map<string, string>, binaries: map<string, seq<bv8>>,
                     semver: Semver, hash: seq<bv8> -> string, id: string, version: string)
    requires NamesInvert(plugins, names) && BinariesMatch(plugins, binaries, semver, hash) && semver.Sound()
    requires OnRecord(plugins, id, version)
    ensures BinariesMatch(WithoutVersion(plugins, id, version), binaries - {Key(id, version)}, semver, hash)
  {
    hide Key;
    var plugins', key := WithoutVersion(plugins, id, version), Key(id, version);
    var binaries' := binaries - {key};
    forall k <- binaries' ensures KeyOnRecord(plugins', k) {
      var i, w :| OnRecord(plugins, i, w) && k == Key(i, w);
      assert OnRecord(plugins', i, w);
    }
    forall i, w | OnRecord(plugins', i, w)
      ensures && semver.valid(w) && Key(i, w) in binaries'
              && plugins'[i].versions[w] == VersionRecord(hash(binaries'[Key(i, w)]), |binaries'[Key(i, w)]|)
    {
      assert OnRecord(plugins, i, w);
      KeyInjective(id, version, i, w);
    }
  }

  lemma DropOffers(plugins: map<string, PluginRecord>, names: map<string, string>, binaries: map<string, seq<bv8>>,
                   shelf: Shelf,
                   semver: Semver, id: string, version: string)
    requires NamesInvert(plugins, names) && Offers(plugins, names, binaries, shelf) && semver.Sound()
               && semver.valid(version)
    requires OnRecord(plugins, id, version)
    ensures var plugins' := WithoutVersion(plugins, id, version);
            Offers(plugins', if id in plugins' then names else names - {plugins[id].name},
                   binaries - {Key(id, version)}, shelf - {(plugins[id].name, version)})
  {
    hide Key;
    var plugins', key := WithoutVersion(plugins, id, version), Key(id, version);
    var binaries', shelf' := binaries - {key}, shelf - {(plugins[id].name, version)};
    var names' := if id in plugins' then names else names - {plugins[id].name};
    forall p <- shelf'
      ensures && p.0 in names' && OnRecord(plugins', names'[p.0], p.1) && Key(names'[p.0], p.1) in binaries'
              && binaries'[Key(names'[p.0], p.1)] == shelf'[p]
    {
      var i := names[p.0];
      assert OnRecord(plugins, i, p.1) && plugins[i].name == p.0;
      assert OnRecord(plugins', i, p.1);
      KeyInjective(id, version, i, p.1);
    }
    forall i, w | OnRecord(plugins', i, w) ensures (plugins'[i].name, w) in shelf' {
      assert OnRecord(plugins, i, w) && plugins'[i].name == plugins[i].name;
    }
  }

  /** Plugin records by id, their names, their binaries and their ratings. */
  class PluginStore {
    const semver: Semver
    const hash: seq<bv8> -> string
    const maxSize: nat
    var plugins: map<string, PluginRecord>
    var names: map<string, string>
    var binaries: map<string, seq<bv8>>
    var ratings: map<string, Rating>
    ghost var shelf: Shelf

    ghost predicate Valid()
      reads this
    {
      && semver.Sound()
      && NamesInvert(plugins, names)
      && BinariesMatch(plugins, binaries, semver, hash)
      && RatingsMatch(plugins, ratings)
      && Offers(plugins, names, binaries, shelf)
    }

    constructor (semver: Semver, hash: seq<bv8> -> string, maxSize: nat)
      requires semver.Sound()
      ensures Valid() && shelf == map[] && plugins == map[] && ratings == map[]
      ensures this.semver == semver && this.hash == hash && this.maxSize == maxSize
    {
      this.semver, this.hash, this.maxSize := semver, hash, maxSize;
      plugins, names, binaries, ratings, shelf := map[], map[], map[], map[], map[];
    }

    /** Why a publication is refused, said of the shelf alone. */
    ghost predicate Refuses(meta: Metadata, size: nat, error: Error)
      reads this
    {
      match error
      case PluginTooLarge => size > maxSize
      case InvalidSemver => size <= maxSize && !semver.valid(meta.version)
      case VersionConflict => size <= maxSize && semver.valid(meta.version) && (meta.name, meta.version) in shelf
      case VersionNotNewer =>
        && size <= maxSize && semver.valid(meta.version) && (meta.name, meta.version) !in shelf
        && exists p <- shelf :: p.0 == meta.name && semver.leq(meta.version, p.1)
      case _ => false
    }

    ghost predicate Accepts(meta: Metadata, size: nat)
      reads this
    {
      forall e :: !Refuses(meta, size, e)
    }

    /** Puts a version on the shelf. An unused id is given to a name that is new. */
    method Publish(meta: Metadata, bytes: seq<bv8>, newId: string) returns (r: Result<string>)
      requires Valid() && newId !in plugins && '@' !in newId
      modifies this
      ensures Valid()
      ensures r.Err? ==> Refuses(meta, |bytes|, r.error) && unchanged(this)
      ensures r.Ok? ==>
        && old(Accepts(meta, |bytes|))
        && r.value == (if meta.name in old(names) then old(names)[meta.name] else newId)
        && names == old(names)[meta.name := r.value]
        && shelf == old(shelf)[(meta.name, meta.version) := bytes]
        && plugins ==
            old(plugins)[r.value := WithVersion(Lookup(old(plugins), r.value), meta,
                VersionRecord(hash(bytes), |bytes|))]
        && plugins[r.value].about == meta.about
        && plugins[r.value].name == meta.name
        && (meta.name in old(names) && r.value in old(plugins) ==>
              plugins[r.value].credit == old(plugins)[r.value].credit
              && plugins[r.value].downloads == old(plugins)[r.value].downloads)
        && (meta.name !in old(names) ==> plugins[r.value].credit == meta.credit && plugins[r.value].downloads == 0)
        && ratings == old(ratings)
    {
      hide NamesInvert, BinariesMatch, RatingsMatch, Offers, Refuses, Accepts;
      var error := CheckPublish(meta, |bytes|);
      if error.Some? {
        return Err(error.value);
      }
      var id := if meta.name in names then names[meta.name] else newId;
      if meta.name in names {
        NamedVersions(meta.name);
      }
      PutVersion(meta, bytes, id);
      r := Ok(id);
    }

    /** The checks before anything is changed. The name index never points at a missing plugin. */
    method CheckPublish(meta: Metadata, size: nat) returns (error: Option<Error>)
      requires Valid()
      ensures error.Some? ==> Refuses(meta, size, error.value)
      ensures error.None? ==> semver.valid(meta.version) && Accepts(meta, size)
    {
      hide NamesInvert, BinariesMatch, RatingsMatch, Offers;
      if size > maxSize {
        return Some(PluginTooLarge);
      }
      if !semver.valid(meta.version) {
        return Some(InvalidSemver);
      }
      NamedIff(meta.name);
      if meta.name in names {
        NamedVersions(meta.name);
        var versions := plugins[names[meta.name]].versions;
        if meta.version in versions {
          return Some(VersionConflict);
        }
        var greatest := Greatest(semver, versions.Keys);
        if greatest.Some? && semver.leq(meta.version, greatest.value) {
          assert (meta.name, greatest.value) in shelf;
          return Some(VersionNotNewer);
        }
        forall p <- shelf ensures !(p.0 == meta.name && semver.leq(meta.version, p.1)) {
          if p.0 == meta.name && semver.leq(meta.version, p.1) {
            assert p == (meta.name, p.1) && p.1 in versions;
            VersionValid(names[meta.name], p.1);
          }
        }
      }
      error := None;
    }

    /** Records a version that passed the checks. */
    method PutVersion(meta: Metadata, bytes: seq<bv8>, id: string)
      requires Valid() && semver.valid(meta.version) && PlaceFor(plugins, names, meta.name, id)
      modifies this
      ensures Valid()
      ensures names == old(names)[meta.name := id] && ratings == old(ratings)
      ensures shelf == old(shelf)[(meta.name, meta.version) := bytes]
      ensures plugins ==
                old(plugins)[id := WithVersion(Lookup(old(plugins), id), meta, VersionRecord(hash(bytes), |bytes|))]
    {
      hide NamesInvert, BinariesMatch, RatingsMatch, Offers;
      ghost var before := plugins;
      var version := VersionRecord(hash(bytes), |bytes|);
      PutNames(plugins, names, meta, id, version);
      PutBinaries(plugins, binaries, semver, hash, meta, id, bytes);
      PutOffers(plugins, names, binaries, shelf, semver, meta, id, version, bytes);
      PutRatings(plugins, ratings, id, WithVersion(Lookup(plugins, id), meta, version));
      if meta.name !in names {
        plugins := plugins[id := PluginRecord(meta.name, meta.credit, meta.about, map[], 0)];
        names := names[meta.name := id];
      } else {
        NamedVersions(meta.name);
      }
      binaries := binaries[Key(id, meta.version) := bytes];
      var record := plugins[id];
      plugins := plugins[id := record.(versions := record.versions[meta.version := version], about := meta.about)];
      shelf := shelf[(meta.name, meta.version) := bytes];
      assert plugins == before[id := WithVersion(Lookup(before, id), meta, version)];
      assert names == old(names)[meta.name := id];
    }

    /** Takes a version off the shelf, and the plugin with its ratings when it was the last. */
    method UnpublishVersion(id: string, version: string) returns (r: Result<()>)
      requires Valid()
      modifies this
      ensures Valid()
      ensures r.Err? ==> unchanged(this) && r.error == (if id in plugins then VersionNotFound else NotFound)
      ensures r.Ok? <==> old(OnRecord(plugins, id, version))
      ensures r.Ok? ==>
        && shelf == old(shelf) - {(old(plugins)[id].name, version)}
        && plugins == WithoutVersion(old(plugins), id, version)
        && ratings == (if id in plugins then old(ratings) else old(ratings) - {id})
        && plugins - {id} == old(plugins) - {id}
        && (id !in plugins <==> old(plugins)[id].versions.Keys == {version})
        && (id in plugins ==> plugins[id] == old(plugins)[id].(versions := old(plugins)[id].versions - {version}))
    {
      hide NamesInvert, BinariesMatch, RatingsMatch, Offers;
      if id !in plugins {
        return Err(NotFound);
      }
      if version !in plugins[id].versions {
        return Err(VersionNotFound);
      }
      assert OnRecord(plugins, id, version);
      VersionValid(id, version);
      DropNames(plugins, names, id, version);
      DropBinaries(plugins, names, binaries, semver, hash, id, version);
      DropOffers(plugins, names, binaries, shelf, semver, id, version);
      DropRatings(plugins, ratings, id, version);
      ghost var before := plugins;
      binaries := binaries - {Key(id, version)};
      var record := plugins[id];
      var left := record.versions - {version};
      plugins := plugins[id := record.(versions := left)];
      if left == map[] {
        plugins := plugins - {id};
        names := names - {record.name};
        ratings := ratings - {id};
      }
      shelf := shelf - {(record.name, version)};
      assert plugins == WithoutVersion(before, id, version);
      WithoutVersionIs(before, id, version);
      r := Ok(());
    }

    /** Fetches a binary by id and version, and counts the download. */
    method Download(id: string, version: string) returns (r: Result<seq<bv8>>)
      requires Valid()
      modifies this`plugins
      ensures Valid()
      ensures r.Err? ==> plugins == old(plugins) && r.error == (if id in plugins then VersionNotFound else NotFound)
      ensures r.Ok? <==> old(OnRecord(plugins, id, version))
      ensures r.Ok? ==>
        && (old(plugins)[id].name, version) in shelf && r.value == shelf[(old(plugins)[id].name, version)]
        && plugins == old(plugins)[id := old(plugins)[id].(downloads := old(plugins)[id].downloads + 1)]
    {
      hide NamesInvert, BinariesMatch, RatingsMatch, Offers, Key;
      KeyOnRecordIff(id, version);
      var key := Key(id, version);
      if key !in binaries {
        return Err(if id in plugins then VersionNotFound else NotFound);
      }
      ShelfAt(id, version);
      r := Ok(binaries[key]);
      CountKeeps(id);
      plugins := plugins[id := plugins[id].(downloads := plugins[id].downloads + 1)];
    }

    /** Adds a rating from one to five. */
    method Rate(id: string, rating: nat) returns (r: Result<real>)
      requires Valid()
      modifies this`ratings
      ensures Valid()
      ensures r.Err? ==> ratings == old(ratings) && r.error == (if 1 <= rating <= 5 then NotFound else BadRequest)
      ensures r.Ok? <==> 1 <= rating <= 5 && id in plugins
      ensures r.Ok? ==>
        && var was := if id in old(ratings) then old(ratings)[id] else Rating(0, 0);
        && ratings == old(ratings)[id := Rating(was.total + rating, was.count + 1)]
        && r.value * (was.count + 1) as real == (was.total + rating) as real
        && 1.0 <= r.value <= 5.0
    {
      hide NamesInvert, BinariesMatch, RatingsMatch, Offers;
      if !(1 <= rating <= 5) {
        return Err(BadRequest);
      }
      if id !in plugins {
        return Err(NotFound);
      }
      var was := if id in ratings then ratings[id] else Rating(0, 0);
      RateKeeps(plugins, ratings, id, was, rating);
      var total, count := was.total + rating, was.count + 1;
      ratings := ratings[id := Rating(total, count)];
      r := Ok(total as real / count as real);
      AverageBetween(total, count);
    }

    /** The versions of a named plugin are those on the shelf under its name. */
    lemma NamedVersions(name: string)
      requires Valid() && name in names
      ensures names[name] in plugins && '@' !in names[name] && plugins[names[name]].name == name
      ensures forall v :: v in plugins[names[name]].versions <==> (name, v) in shelf
    {
      hide BinariesMatch;
      var id := names[name];
      forall v ensures v in plugins[id].versions <==> (name, v) in shelf {
        assert v in plugins[id].versions <==> OnRecord(plugins, id, v);
      }
    }

    /** What is on the shelf is under a name of the index. */
    lemma NamedIff(name: string)
      requires Valid()
      ensures name in names <==> exists p <- shelf :: p.0 == name
    {
      hide BinariesMatch;
      if name in names {
        var id := names[name];
        assert plugins[id].versions != map[];
        var v :| v in plugins[id].versions;
        assert OnRecord(plugins, id, v) && (name, v) in shelf;
      }
    }

    lemma VersionValid(id: string, version: string)
      requires Valid() && OnRecord(plugins, id, version)
      ensures semver.valid(version) && '@' !in version && '@' !in id
    {
    }

    /** No id or version a caller can make up reaches the binary of another pair. */
    lemma KeyOnRecordIff(id: string, version: string)
      requires Valid()
      ensures Key(id, version) in binaries <==> OnRecord(plugins, id, version)
    {
      hide Key;
      if Key(id, version) in binaries {
        assert KeyOnRecord(plugins, Key(id, version));
        var i, w :| OnRecord(plugins, i, w) && Key(id, version) == Key(i, w);
        VersionValid(i, w);
        KeyInjective(i, w, id, version);
      }
    }

    lemma ShelfAt(id: string, version: string)
      requires Valid() && OnRecord(plugins, id, version)
      ensures Key(id, version) in binaries && (plugins[id].name, version) in shelf
      ensures shelf[(plugins[id].name, version)] == binaries[Key(id, version)]
    {
    }

    /** Counting a download changes neither names nor versions. */
    lemma CountKeeps(id: string)
      requires Valid() && id in plugins
      ensures var plugins' := Counted(plugins, id);
              && NamesInvert(plugins', names) && BinariesMatch(plugins', binaries, semver, hash)
              && RatingsMatch(plugins', ratings) && Offers(plugins', names, binaries, shelf)
    {
      hide Key, Counted, NamesInvert, BinariesMatch, RatingsMatch, Offers;
      CountNames(plugins, names, id);
      CountBinaries(plugins, binaries, semver, hash, id);
      CountRatings(plugins, ratings, id);
      CountOffers(plugins, names, binaries, shelf, id);
    }
  }

  /** The plugins with one more download of one of them. */
  function Counted(plugins: map<string, PluginRecord>, id: string): (r: map<string, PluginRecord>)
    requires id in plugins
    ensures r.Keys == plugins.Keys
    ensures forall i <- plugins :: r[i].name == plugins[i].name && r[i].versions == plugins[i].versions
  {
    plugins[id := plugins[id].(downloads := plugins[id].downloads + 1)]
  }

  lemma CountNames(plugins: map<string, PluginRecord>, names: map<string, string>, id: string)
    requires id in plugins && NamesInvert(plugins, names)
    ensures NamesInvert(Counted(plugins, id), names)
  {
    hide Counted;
  }

  lemma CountRatings(plugins: map<string, PluginRecord>, ratings: map<string, Rating>, id: string)
    requires id in plugins && RatingsMatch(plugins, ratings)
    ensures RatingsMatch(Counted(plugins, id), ratings)
  {
    hide Counted;
  }

  lemma CountBinaries(plugins: map<string, PluginRecord>, binaries: map<string, seq<bv8>>, semver: Semver,
                      hash: seq<bv8> -> string, id: string)
    requires id in plugins && BinariesMatch(plugins, binaries, semver, hash)
    ensures BinariesMatch(Counted(plugins, id), binaries, semver, hash)
  {
    hide Counted, Key;
    var plugins' := Counted(plugins, id);
    assert forall i, w :: OnRecord(plugins', i, w) <==> OnRecord(plugins, i, w);
    forall k <- binaries ensures KeyOnRecord(plugins', k) {
      var i, w :| OnRecord(plugins, i, w) && k == Key(i, w);
      assert OnRecord(plugins', i, w);
    }
  }

  lemma CountOffers(plugins: map<string, PluginRecord>, names: map<string, string>, binaries: map<string, seq<bv8>>,
                    shelf: Shelf, id: string)
    requires id in plugins && Offers(plugins, names, binaries, shelf)
    ensures Offers(Counted(plugins, id), names, binaries, shelf)
  {
    hide Counted, Key;
    var plugins' := Counted(plugins, id);
    forall p <- shelf ensures p.0 in names && OnRecord(plugins', names[p.0], p.1) {
      assert OnRecord(plugins, names[p.0], p.1);
    }
    forall i, w | OnRecord(plugins', i, w) ensures (plugins'[i].name, w) in shelf {
      assert OnRecord(plugins, i, w);
    }
  }

  lemma PutRatings(plugins: map<string, PluginRecord>, ratings: map<string, Rating>, id: string, record: PluginRecord)
    requires RatingsMatch(plugins, ratings)
    ensures RatingsMatch(plugins[id := record], ratings)
  {
  }

  lemma DropRatings(plugins: map<string, PluginRecord>, ratings: map<string, Rating>, id: string, version: string)
    requires RatingsMatch(plugins, ratings) && id in plugins
    ensures var plugins' := WithoutVersion(plugins, id, version);
            RatingsMatch(plugins', if id in plugins' then ratings else ratings - {id})
  {
  }

  lemma RateKeeps(plugins: map<string, PluginRecord>, ratings: map<string, Rating>, id: string, was: Rating,
                  rating: nat)
    requires RatingsMatch(plugins, ratings) && id in plugins && 1 <= rating <= 5
    requires was == if id in ratings then ratings[id] else Rating(0, 0)
    ensures RatingsMatch(plugins, ratings[id := Rating(was.total + rating, was.count + 1)])
    ensures 1 <= was.count + 1 <= was.total + rating <= 5 * (was.count + 1)
  {
  }

  lemma PositiveProduct(x: real, y: real)
    requires x > 0.0 && y > 0.0
    ensures x * y > 0.0
  {
  }

  /** A quotient is at most a bound if the bound times the divisor is at least the dividend. */
  lemma QuotientAtMost(t: real, c: real, bound: real)
    requires c > 0.0 && t <= bound * c
    ensures t / c <= bound
  {
    var a := t / c;
    if a > bound {
      PositiveProduct(a - bound, c);
      assert (a - bound) * c == a * c - bound * c;
    }
  }

  lemma QuotientAtLeast(t: real, c: real, bound: real)
    requires c > 0.0 && t >= bound * c
    ensures t / c >= bound
  {
    var a := t / c;
    if a < bound {
      PositiveProduct(bound - a, c);
      assert (bound - a) * c == bound * c - a * c;
    }
  }

  lemma AverageBetween(total: nat, count: nat)
    requires 1 <= count <= total <= 5 * count
    ensures var a := total as real / count as real; 1.0 <= a <= 5.0 && a * count as real == total as real
  {
    var t, c := total as real, count as real;
    QuotientAtLeast(t, c, 1.0);
    QuotientAtMost(t, c, 5.0);
  }

  /** The shelf is settled by the four maps. */
  lemma ShelfUnique(plugins: map<string, PluginRecord>, names: map<string, string>, binaries: map<string, seq<bv8>>,
                    a: Shelf, b: Shelf)
    requires NamesInvert(plugins, names) && Offers(plugins, names, binaries, a) && Offers(plugins, names, binaries, b)
    ensures a == b
  {
    forall p ensures p in a <==> p in b {
      if p in a {
        assert OnRecord(plugins, names[p.0], p.1) && (plugins[names[p.0]].name, p.1) == p;
      }
      if p in b {
        assert OnRecord(plugins, names[p.0], p.1) && (plugins[names[p.0]].name, p.1) == p;
      }
    }
    assert a.Keys == b.Keys;
  }
}
