/** Records under distinct keys as a finite map, and what a scan of them in key order answers. */
module KeyedRecords {
  import opened Bytes
  import opened LittleEndian
  import opened SortKeys
  import opened Scanning

  /** The map holding the records, in whatever order they come; a repeated key keeps the last. */
  ghost function ByKey<T>(recs: seq<T>, key: T -> SortKey): map<SortKey, T> {
    if recs == [] then map[]
    else ByKey(recs[..|recs| - 1], key)[key(recs[|recs| - 1]) := recs[|recs| - 1]]
  }

  /** With distinct keys the map has every record, each under its own key, and nothing else. */
  lemma {:induction false} ByKeyHolds<T>(recs: seq<T>, key: T -> SortKey)
    requires DistinctKeys(recs, key)
    ensures forall i :: 0 <= i < |recs| ==> key(recs[i]) in ByKey(recs, key) && ByKey(recs, key)[key(recs[i])] == recs[i]
    ensures forall k :: k in ByKey(recs, key) ==> ByKey(recs, key)[k] in recs && key(ByKey(recs, key)[k]) == k
  {
    if recs != [] {
      ByKeyHolds(recs[..|recs| - 1], key);
    }
  }

  /** The order the records came in does not show. */
  lemma ByKeyPermuted<T>(a: seq<T>, b: seq<T>, key: T -> SortKey)
    requires multiset(a) == multiset(b) && DistinctKeys(a, key)
    ensures ByKey(a, key) == ByKey(b, key)
  {
    DistinctPermuted(a, b, key);
    ByKeyHolds(a, key);
    ByKeyHolds(b, key);
    forall k | k in ByKey(a, key)
      ensures k in ByKey(b, key) && ByKey(b, key)[k] == ByKey(a, key)[k]
    {
      assert ByKey(a, key)[k] in multiset(b);
    }
    forall k | k in ByKey(b, key)
      ensures k in ByKey(a, key)
    {
      assert ByKey(b, key)[k] in multiset(a);
    }
  }

  /** Looking for one key: raws stand for recs, record by record. */
  lemma FirstByKey<T, R>(raws: seq<R>, want: R -> bool, recs: seq<T>, key: T -> SortKey, k: SortKey)
    requires |raws| == |recs| && DistinctKeys(recs, key)
    requires forall i :: 0 <= i < |recs| ==> want(raws[i]) == (key(recs[i]) == k)
    ensures First(raws, want).Some? <==> k in ByKey(recs, key)
    ensures k in ByKey(recs, key) ==>
      exists i :: 0 <= i < |recs| && recs[i] == ByKey(recs, key)[k] && First(raws, want) == Some(raws[i])
  {
    ByKeyHolds(recs, key);
    FirstIs(raws, want);
    if k in ByKey(recs, key) {
      var i :| 0 <= i < |recs| && recs[i] == ByKey(recs, key)[k];
      assert want(raws[i]);
    }
    if First(raws, want).Some? {
      var i :| 0 <= i < |raws| && raws[i] == First(raws, want).value;
      assert key(recs[i]) == k;
    }
  }

  // ---------- Listings ----------

  ghost predicate Ascends(ks: seq<SortKey>) {
    forall i, j :: 0 <= i < j < |ks| ==> KeyPrecedes(ks[i], ks[j])
  }

  lemma AscendsExactly(ks: seq<SortKey>)
    ensures Ascends(ks) <==> forall i, j :: 0 <= i < j < |ks| ==> Before(ks[i], ks[j])
  {
    hide Before, KeyPrecedes;
    forall i, j | 0 <= i < j < |ks|
      ensures Before(ks[i], ks[j]) <==> KeyPrecedes(ks[i], ks[j])
    {
      BeforeExactly(ks[i], ks[j]);
    }
  }

  /** ks are the keys of m under one inode, each once, in order. */
  ghost predicate KeysUnder<T>(ks: seq<SortKey>, m: map<SortKey, T>, inode: i64) {
    Ascends(ks) && forall k :: k in ks <==> k in m && k.inode == inode
  }

  ghost predicate ShownFor<T, U(!new)>(l: seq<U>, ks: seq<SortKey>, m: map<SortKey, T>, show: T -> Option<U>) {
    && |l| == |ks| && (forall k :: k in ks ==> k in m)
    && forall i :: 0 <= i < |ks| ==> Some(l[i]) == show(m[ks[i]])
  }

  /** l shows exactly m's entries under inode, in ascending key order. */
  ghost predicate Listing<T, U(!new)>(l: seq<U>, m: map<SortKey, T>, inode: i64, show: T -> Option<U>) {
    exists ks: seq<SortKey> :: KeysUnder(ks, m, inode) && ShownFor(l, ks, m, show)
  }

  /** There is only one such list. */
  lemma ListingUnique<T, U(!new)>(a: seq<U>, b: seq<U>, m: map<SortKey, T>, inode: i64, show: T -> Option<U>)
    requires Listing(a, m, inode, show) && Listing(b, m, inode, show)
    ensures a == b
  {
    var ka :| KeysUnder(ka, m, inode) && ShownFor(a, ka, m, show);
    var kb :| KeysUnder(kb, m, inode) && ShownFor(b, kb, m, show);
    SameAscending(ka, kb);
  }

  lemma {:induction false} SameAscending(a: seq<SortKey>, b: seq<SortKey>)
    requires Ascends(a) && Ascends(b) && forall k :: k in a <==> k in b
    ensures a == b
  {
    AscendsExactly(a);
    AscendsExactly(b);
    if a != [] {
      assert a[0] in b;
    }
    if b != [] {
      assert b[0] in a;
    }
    if a != [] {
      var i :| 0 <= i < |a| && a[i] == b[0];
      var j :| 0 <= j < |b| && b[j] == a[0];
      BeforeTotal(a[0], b[0]);
      assert a[0] == b[0];
      forall k
        ensures k in a[1..] <==> k in b[1..]
      {
        BeforeTotal(a[0], a[0]);
        assert k in a <==> k == a[0] || k in a[1..];
        assert k in b <==> k == b[0] || k in b[1..];
        assert a[0] !in a[1..] && b[0] !in b[1..];
      }
      SameAscending(a[1..], b[1..]);
    }
  }

  /** The keys of the records under one inode, in stored order. */
  ghost function StoredKeys<T>(recs: seq<T>, key: T -> SortKey, inode: i64): seq<SortKey> {
    if recs == [] then []
    else
      var k := key(recs[|recs| - 1]);
      StoredKeys(recs[..|recs| - 1], key, inode) + (if k.inode == inode then [k] else [])
  }

  lemma {:induction false} StoredKeysAre<T>(recs: seq<T>, key: T -> SortKey, inode: i64)
    requires Ascending(recs, key)
    ensures Ascends(StoredKeys(recs, key, inode))
    ensures forall k :: k in StoredKeys(recs, key, inode) <==>
              k.inode == inode && exists i :: 0 <= i < |recs| && key(recs[i]) == k
  {
    if recs != [] {
      var n := |recs| - 1;
      StoredKeysAre(recs[..n], key, inode);
      var front := StoredKeys(recs[..n], key, inode);
      AscendsExactly(front);
      AscendsExactly(StoredKeys(recs, key, inode));
      forall k | k in front
        ensures Before(k, key(recs[n]))
      {
        var i :| 0 <= i < n && key(recs[..n][i]) == k;
        assert recs[..n][i] == recs[i];
      }
      forall k
        ensures k in StoredKeys(recs, key, inode) <==> k.inode == inode && exists i :: 0 <= i < |recs| && key(recs[i]) == k
      {
        if k in front {
          var i :| 0 <= i < n && key(recs[..n][i]) == k;
          assert key(recs[i]) == k;
        }
        if i :| 0 <= i < |recs| && key(recs[i]) == k && i < n {
          assert recs[..n][i] == recs[i];
        }
      }
    }
  }

  /** A scan that reads a record whenever it wants one reads one for each stored key. */
  lemma {:induction false} ScanShows<T, R, U(!new)>(raws: seq<R>, want: R -> bool, read: R -> Option<U>, recs: seq<T>,
                                                   key: T -> SortKey, m: map<SortKey, T>, show: T -> Option<U>, inode: i64)
    requires |raws| == |recs|
    requires forall i :: 0 <= i < |recs| ==> key(recs[i]) in m && m[key(recs[i])] == recs[i]
    requires forall i :: 0 <= i < |recs| ==> want(raws[i]) == (key(recs[i]).inode == inode)
    requires forall i :: 0 <= i < |recs| && want(raws[i]) ==> read(raws[i]).Some? && read(raws[i]) == show(recs[i])
    ensures Scan(raws, want, read).Some?
    ensures ShownFor(Scan(raws, want, read).value, StoredKeys(recs, key, inode), m, show)
  {
    if recs != [] {
      var n := |recs| - 1;
      ScanShows(raws[..n], want, read, recs[..n], key, m, show, inode);
    }
  }

  /** Listing one inode. */
  lemma ScanLists<T, R, U(!new)>(raws: seq<R>, want: R -> bool, read: R -> Option<U>, recs: seq<T>,
                                key: T -> SortKey, show: T -> Option<U>, inode: i64)
    requires |raws| == |recs| && Ascending(recs, key)
    requires forall i :: 0 <= i < |recs| ==> want(raws[i]) == (key(recs[i]).inode == inode)
    requires forall i :: 0 <= i < |recs| && want(raws[i]) ==> read(raws[i]).Some? && read(raws[i]) == show(recs[i])
    ensures Scan(raws, want, read).Some?
    ensures Listing(Scan(raws, want, read).value, ByKey(recs, key), inode, show)
  {
    hide StoredKeys, Scan, ByKey;
    AscendingDistinct(recs, key);
    ByKeyHolds(recs, key);
    ScanShows(raws, want, read, recs, key, ByKey(recs, key), show, inode);
    StoredKeysAre(recs, key, inode);
    var ks, m := StoredKeys(recs, key, inode), ByKey(recs, key);
    forall k
      ensures k in ks <==> k in m && k.inode == inode
    {
      if k in m {
        var i :| 0 <= i < |recs| && recs[i] == m[k];
        assert key(recs[i]) == k;
      }
    }
    assert KeysUnder(ks, m, inode);
  }

  lemma AscendingDistinct<T>(recs: seq<T>, key: T -> SortKey)
    requires Ascending(recs, key)
    ensures DistinctKeys(recs, key)
  {
    forall i, j | 0 <= i < j < |recs|
      ensures key(recs[i]) != key(recs[j])
    {
      BeforeTotal(key(recs[i]), key(recs[j]));
    }
  }
}
