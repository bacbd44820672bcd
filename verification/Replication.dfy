/** Merging of stamped entries, as both flow assignments and context entries are replicated:
    a newer stamp replaces, an equal or older one is ignored. */
module Replication {

  datatype Stamped<V> = Stamped(value: V, stamp: nat)

  datatype Update<K, V> = Update(key: K, entry: Stamped<V>)

  function Merge<K, V>(m: map<K, Stamped<V>>, u: Update<K, V>): map<K, Stamped<V>> {
    if u.key in m && m[u.key].stamp >= u.entry.stamp then m else m[u.key := u.entry]
  }

  function MergeAll<K, V>(m: map<K, Stamped<V>>, us: seq<Update<K, V>>): map<K, Stamped<V>> {
    if us == [] then m else Merge(MergeAll(m, us[..|us| - 1]), us[|us| - 1])
  }

  /** The entry was there before or is one of the updates for its key. */
  ghost predicate Offered<K, V>(m: map<K, Stamped<V>>, us: seq<Update<K, V>>, k: K, e: Stamped<V>) {
    (k in m && m[k] == e) || Update(k, e) in us
  }

  /** A merged table holds, for each key offered, an offered entry with the highest stamp. */
  ghost predicate HoldsHighest<K(!new), V(!new)>(m: map<K, Stamped<V>>, us: seq<Update<K, V>>, r: map<K, Stamped<V>>) {
    && (forall k <- r :: Offered(m, us, k, r[k]))
    && (forall k, e | Offered(m, us, k, e) :: k in r && e.stamp <= r[k].stamp)
  }

  lemma {:induction false} MergeAllHoldsHighest<K(!new), V(!new)>(m: map<K, Stamped<V>>, us: seq<Update<K, V>>)
    ensures HoldsHighest(m, us, MergeAll(m, us))
  {
    if us != [] {
      var front, u := us[..|us| - 1], us[|us| - 1];
      assert us == front + [u];
      MergeAllHoldsHighest(m, front);
      var r := MergeAll(m, front);
      assert forall k, e :: Offered(m, us, k, e) <==> Offered(m, front, k, e) || u == Update(k, e);
    }
  }

  /** Of entries with the same stamp the first one stays: the one that was there, or the first to arrive. */
  ghost predicate FirstHighest<K, V>(m: map<K, Stamped<V>>, us: seq<Update<K, V>>, k: K, e: Stamped<V>) {
    || (k in m && m[k] == e && forall u <- us :: u.key == k ==> u.entry.stamp <= e.stamp)
    || ((k in m ==> m[k].stamp < e.stamp)
        && (forall u <- us :: u.key == k ==> u.entry.stamp <= e.stamp)
        && exists i :: 0 <= i < |us| && us[i] == Update(k, e) && forall j | 0 <= j < i :: us[j].key == k ==>
            us[j].entry.stamp < e.stamp)
  }

  lemma {:induction false} MergeKeepsFirst<K(!new), V(!new)>(m: map<K, Stamped<V>>, us: seq<Update<K, V>>, k: K)
    requires k in MergeAll(m, us)
    ensures FirstHighest(m, us, k, MergeAll(m, us)[k])
  {
    if us != [] {
      var front, u := us[..|us| - 1], us[|us| - 1];
      assert us == front + [u];
      assert forall x :: x in us <==> x in front || x == u;
      if k in MergeAll(m, front) {
        MergeKeepsFirst(m, front, k);
      } else {
        MergeAllHoldsHighest(m, front);
        assert k in m ==> Offered(m, front, k, m[k]);
        forall x <- front ensures x.key != k {
          assert Offered(m, front, x.key, x.entry) by { assert Update(x.key, x.entry) == x; }
        }
      }
      MergeFirstMore(m, front, u, k);
    }
  }

  lemma MergeFirstMore<K(!new), V(!new)>(m: map<K, Stamped<V>>, front: seq<Update<K, V>>, u: Update<K, V>, k: K)
    requires k in MergeAll(m, front) ==> FirstHighest(m, front, k, MergeAll(m, front)[k])
    requires k !in MergeAll(m, front) ==> k !in m && forall x <- front :: x.key != k
    requires k in Merge(MergeAll(m, front), u)
    ensures FirstHighest(m, front + [u], k, Merge(MergeAll(m, front), u)[k])
  {
    var us, r := front + [u], MergeAll(m, front);
    assert forall x :: x in us <==> x in front || x == u;
    if u.key == k && (k !in r || r[k].stamp < u.entry.stamp) {
      assert us[|front|] == u == Update(k, u.entry);
      forall j | 0 <= j < |front| ensures us[j].key == k ==> us[j].entry.stamp < u.entry.stamp {
        assert us[j] in front;
      }
    } else if !(k in m && m[k] == r[k] && forall x <- front :: x.key == k ==> x.entry.stamp <= r[k].stamp) {
      var i :| 0 <= i < |front| && front[i] == Update(k, r[k])
               && forall j | 0 <= j < i :: front[j].key == k ==> front[j].entry.stamp < r[k].stamp;
      assert us[i] == front[i] && forall j | 0 <= j < i :: us[j] == front[j];
    }
  }

  /** Equal stamps of one key carry equal values. */
  ghost predicate Consistent<K(!new), V(!new)>(m: map<K, Stamped<V>>, us: seq<Update<K, V>>) {
    forall k, e, e' | Offered(m, us, k, e) && Offered(m, us, k, e') && e.stamp == e'.stamp :: e == e'
  }

  /** Merging is independent of order and repetition when stamps are consistent. */
  lemma MergeOrderFree<K(!new), V(!new)>(m: map<K, Stamped<V>>, us: seq<Update<K, V>>, ws: seq<Update<K, V>>)
    requires Consistent(m, us) && forall u :: u in us <==> u in ws
    ensures MergeAll(m, us) == MergeAll(m, ws)
  {
    MergeAllHoldsHighest(m, us);
    MergeAllHoldsHighest(m, ws);
    var a, b := MergeAll(m, us), MergeAll(m, ws);
    assert forall k, e :: Offered(m, us, k, e) <==> Offered(m, ws, k, e);
    forall k | k in a || k in b ensures k in a && k in b && a[k] == b[k] {
      if k in a { assert Offered(m, ws, k, a[k]); }
      if k in b { assert Offered(m, us, k, b[k]); }
      assert a[k].stamp <= b[k].stamp <= a[k].stamp;
    }
  }

  /** Merging the same updates again changes nothing, consistent or not. */
  lemma {:induction false} MergeIdempotent<K(!new), V(!new)>(m: map<K, Stamped<V>>, us: seq<Update<K, V>>,
                                                             again: seq<Update<K, V>>)
    requires forall u <- again :: u in us
    ensures MergeAll(MergeAll(m, us), again) == MergeAll(m, us)
  {
    if again != [] {
      var front, u := again[..|again| - 1], again[|again| - 1];
      assert forall x <- front :: x in again;
      MergeIdempotent(m, us, front);
      MergeAllHoldsHighest(m, us);
      assert u in again && Offered(m, us, u.key, u.entry);
    }
  }

  lemma {:induction false} MergeAllConcat<K, V>(m: map<K, Stamped<V>>, us: seq<Update<K, V>>, ws: seq<Update<K, V>>)
    ensures MergeAll(m, us + ws) == MergeAll(MergeAll(m, us), ws)
  {
    if ws == [] {
      assert us + ws == us;
    } else {
      assert (us + ws)[..|us + ws| - 1] == us + ws[..|ws| - 1];
      MergeAllConcat(m, us, ws[..|ws| - 1]);
    }
  }

  /** Deletions are not stamped: a deleted key comes back exactly when some update for it arrives,
      however old. */
  lemma DeletedComesBack<K(!new), V(!new)>(m: map<K, Stamped<V>>, key: K, us: seq<Update<K, V>>)
    ensures key in MergeAll(m - {key}, us) <==> exists u :: u in us && u.key == key
  {
    var m', r := m - {key}, MergeAll(m - {key}, us);
    MergeAllHoldsHighest(m', us);
    if key in r {
      assert Offered(m', us, key, r[key]);
      assert Update(key, r[key]) in us;
    }
    if u :| u in us && u.key == key {
      assert Update(key, u.entry) == u;
      assert Offered(m', us, key, u.entry);
    }
  }

  // ---- The replicated context store ---------------------------------------

  class SyncManager<V(==, !new)> {
    var context: map<string, Stamped<V>>

    constructor ()
      ensures context == map[]
    {
      context := map[];
    }

    /** A local write: one version above what is stored. */
    method ContextSet(key: string, value: V)
      modifies this
      ensures context ==
                old(context)[key := Stamped(value, (if key in old(context) then old(context)[key].stamp else 0) + 1)]
      ensures context == Merge(old(context), Update(key, context[key]))
    {
      var version := (if key in context then context[key].stamp else 0) + 1;
      context := context[key := Stamped(value, version)];
    }

    method ContextDelete(key: string)
      modifies this
      ensures context == old(context) - {key}
    {
      context := context - {key};
    }

    method ApplyContextUpdates(entries: seq<Update<string, V>>)
      modifies this
      ensures context == MergeAll(old(context), entries)
      ensures HoldsHighest(old(context), entries, context)
    {
      for i := 0 to |entries|
        invariant context == MergeAll(old(context), entries[..i])
      {
        assert entries[..i + 1][..i] == entries[..i];
        var entry := entries[i];
        if entry.key in context && context[entry.key].stamp >= entry.entry.stamp {
          continue;
        }
        context := context[entry.key := entry.entry];
      }
      assert entries[..|entries|] == entries;
      MergeAllHoldsHighest(old(context), entries);
    }

    /** Deletes a key and takes in updates: it is gone unless one of them is for it. */
    method DeleteThenApply(key: string, entries: seq<Update<string, V>>)
      modifies this
      ensures key in context <==> exists u :: u in entries && u.key == key
      ensures context == MergeAll(old(context) - {key}, entries)
    {
      ContextDelete(key);
      ApplyContextUpdates(entries);
      DeletedComesBack(old(context), key, entries);
    }
  }
}
