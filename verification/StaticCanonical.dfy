/** Different catalogs have different bytes, so the bytes are canonical exactly when a sort has no choice. */
module StaticCanonical {
  import opened Bytes
  import opened LittleEndian
  import opened SortKeys
  import opened Arena
  import opened CatalogRecords
  import opened StaticEncoding
  import opened StaticWriter
  import opened StaticView
  import opened StaticLayout
  import opened StaticRoundTrip

  lemma ShownOnce(v: View, a: Catalog, b: Catalog)
    requires Shows(v, a) && Shows(v, b)
    ensures a.nodes == b.nodes && a.edges == b.edges && a.chunks == b.chunks && a.inline == b.inline
    ensures a.symlinks == b.symlinks && a.xattrs == b.xattrs && a.nested == b.nested
  {
    EdgesOnce(v, a, b);
    NestedOnce(v, a, b);
    BlobsOnce(v.inline, a.inline, b.inline);
    BlobsOnce(v.symlinks, a.symlinks, b.symlinks);
    XattrsOnce(v, a, b);
  }

  lemma EdgesOnce(v: View, a: Catalog, b: Catalog)
    requires Shows(v, a) && Shows(v, b)
    ensures a.edges == b.edges
  {
    forall i | 0 <= i < |a.edges|
      ensures a.edges[i] == b.edges[i]
    {
      assert EdgeShown(a.edges[i], a.nodes) == EdgeShown(b.edges[i], b.nodes);
    }
  }

  lemma NestedOnce(v: View, a: Catalog, b: Catalog)
    requires Shows(v, a) && Shows(v, b)
    ensures a.nested == b.nested
  {
    forall i | 0 <= i < |a.nested|
      ensures a.nested[i] == b.nested[i]
    {
      assert NestedShown(v.nested[i], a.nested[i]) && NestedShown(v.nested[i], b.nested[i]);
    }
  }

  lemma BlobsOnce(raws: seq<RawBlob>, a: seq<BlobRec>, b: seq<BlobRec>)
    requires |raws| == |a| == |b|
    requires forall i :: 0 <= i < |a| ==> raws[i] == BlobShown(a[i])
    requires forall i :: 0 <= i < |b| ==> raws[i] == BlobShown(b[i])
    ensures a == b
  {
    forall i | 0 <= i < |a|
      ensures a[i] == b[i]
    {
      assert BlobShown(a[i]) == BlobShown(b[i]);
    }
  }

  lemma XattrsOnce(v: View, a: Catalog, b: Catalog)
    requires Shows(v, a) && Shows(v, b)
    ensures a.xattrs == b.xattrs
  {
    forall i | 0 <= i < |a.xattrs|
      ensures a.xattrs[i] == b.xattrs[i]
    {
      assert XattrShown(a.xattrs[i]) == XattrShown(b.xattrs[i]);
    }
  }

  /** Encoding is injective: equal bytes, equal records in equal order, under equal metadata. */
  lemma EncodeInjective(a: Catalog, b: Catalog)
    requires Writable(a) && IdentitiesReach(a) && Writable(b) && IdentitiesReach(b) && Encode(a) == Encode(b)
    ensures a == b
  {
    hide Writable, Encode, Parse, ArenasFit, SectionsOf, Shows, ViewOf, NonEmpty, AllSections;
    EncodedParses(a);
    EncodedParses(b);
    EncodedShows(a);
    EncodedShows(b);
    ShownOnce(ViewOf(SectionsOf(a)), a, b);
    SignRoundTrip(a.rootInode);
    SignRoundTrip(b.rootInode);
  }

  // ---------- When the bytes depend on the records alone ----------

  /** What Finish may have sorted these records into, and returns bytes for. */
  ghost predicate Arrangement(added: Catalog, c: Catalog) {
    SameRecords(c, added) && c.Sorted() && Writable(c) && IdentitiesReach(c)
  }

  /** Whatever two correct sorts leave, the bytes agree exactly when the arrangements do. */
  lemma BytesShowOrder(added: Catalog, a: Catalog, b: Catalog)
    requires Arrangement(added, a) && Arrangement(added, b)
    ensures Encode(a) == Encode(b) <==> a == b
    ensures added.DistinctKeys() ==> a == b
  {
    hide Encode, Writable;
    if Encode(a) == Encode(b) {
      EncodeInjective(a, b);
    }
    if added.DistinctKeys() {
      SortedCatalogsAgree(added, a, added, b);
    }
  }

  /**
    So the bytes are a function of the records added exactly when records that share a key are equal.
    Otherwise two correct sorts of the same records give different bytes.
   */
  lemma CanonicalExactly(added: Catalog, finished: Catalog)
    requires Arrangement(added, finished)
    ensures added.EqualTies() <==>
            forall a, b :: Arrangement(added, a) && Arrangement(added, b) ==> Encode(a) == Encode(b)
  {
    hide Encode, Writable, Arrangement, Catalog.EqualTies;
    if added.EqualTies() {
      forall a, b | Arrangement(added, a) && Arrangement(added, b)
        ensures Encode(a) == Encode(b)
      {
        OneArrangement(added, a, b);
      }
    } else {
      var other := Rearranged(added, finished);
      BytesShowOrder(added, finished, other);
    }
  }

  lemma OneArrangement(added: Catalog, a: Catalog, b: Catalog)
    requires added.EqualTies() && Arrangement(added, a) && Arrangement(added, b)
    ensures a == b
  {
    hide Writable, Catalog.EqualTies, Catalog.Sorted;
    EqualTiesPermuted(added, a);
    TiedCatalogsAgree(a, b);
  }

  /** Two neighbours that differ under one key, exchanged. */
  lemma Rearranged(added: Catalog, c: Catalog) returns (d: Catalog)
    requires Arrangement(added, c) && !added.EqualTies()
    ensures Arrangement(added, d) && d != c
  {
    hide Writable, IdentitiesReach, SortKeys.EqualTies, SortKeys.Sorted, Exchanged;
    if c.EqualTies() {
      EqualTiesPermuted(c, added);
      assert false;
    } else if !SortKeys.EqualTies(c.nodes, NodeKey) {
      var p := UnequalTies(c.nodes, NodeKey);
      d := c.(nodes := Exchanged(c.nodes, p));
      NodesExchanged(c, p);
    } else if !SortKeys.EqualTies(c.edges, EdgeKey) {
      var p := UnequalTies(c.edges, EdgeKey);
      d := c.(edges := Exchanged(c.edges, p));
      EdgesExchanged(c, p);
    } else if !SortKeys.EqualTies(c.chunks, ChunkKey) {
      var p := UnequalTies(c.chunks, ChunkKey);
      d := c.(chunks := Exchanged(c.chunks, p));
      ChunksExchanged(c, p);
    } else if !SortKeys.EqualTies(c.inline, BlobKey) {
      var p := UnequalTies(c.inline, BlobKey);
      d := c.(inline := Exchanged(c.inline, p));
      InlineExchanged(c, p);
    } else if !SortKeys.EqualTies(c.symlinks, BlobKey) {
      var p := UnequalTies(c.symlinks, BlobKey);
      d := c.(symlinks := Exchanged(c.symlinks, p));
      SymlinksExchanged(c, p);
    } else if !SortKeys.EqualTies(c.xattrs, XattrKey) {
      var p := UnequalTies(c.xattrs, XattrKey);
      d := c.(xattrs := Exchanged(c.xattrs, p));
      XattrsExchanged(c, p);
    } else {
      var p := UnequalTies(c.nested, NestedKey);
      d := c.(nested := Exchanged(c.nested, p));
      NestedExchanged(c, p);
    }
  }

  // ---------- What an exchange leaves of the writer's conditions ----------

  lemma ExchangedSize(strings: seq<Bytes>, p: nat)
    requires p + 1 < |strings|
    ensures |Intern(Exchanged(strings, p)).buf| == |Intern(strings).buf|
  {
    hide Intern;
    ExchangedParts(strings, p);
    SwappedSize(strings[..p], strings[p], strings[p + 1], strings[p + 2..]);
  }

  lemma NodesExchanged(c: Catalog, p: nat)
    requires Writable(c) && IdentitiesReach(c) && p + 1 < |c.nodes|
    ensures Writable(c.(nodes := Exchanged(c.nodes, p))) && IdentitiesReach(c.(nodes := Exchanged(c.nodes, p)))
  {
    hide Intern;
    var d := c.(nodes := Exchanged(c.nodes, p));
    forall i | 0 <= i < |d.edges|
      ensures EdgeOk(d.edges[i], d.nodes)
    {
      assert EdgeOk(c.edges[i], c.nodes);
      var k := NodeIndex(c.nodes, c.edges[i].inode).value;
      assert d.nodes[if k == p then p + 1 else if k == p + 1 then p else k] == c.nodes[k];
    }
    assert NameStrings(d) == NameStrings(c) && BlobStrings(d) == BlobStrings(c);
  }

  lemma EdgesExchanged(c: Catalog, p: nat)
    requires Writable(c) && IdentitiesReach(c) && p + 1 < |c.edges| && EdgeKey(c.edges[p]) == EdgeKey(c.edges[p + 1])
    ensures Writable(c.(edges := Exchanged(c.edges, p))) && IdentitiesReach(c.(edges := Exchanged(c.edges, p)))
  {
    hide Intern, EdgeOk;
    var d := c.(edges := Exchanged(c.edges, p));
    assert EdgeNames(d.edges) == EdgeNames(c.edges);
    assert BlobStrings(d) == BlobStrings(c);
    assert EdgeOk(c.edges[p], c.nodes) && EdgeOk(c.edges[p + 1], c.nodes);
  }

  lemma ChunksExchanged(c: Catalog, p: nat)
    requires Writable(c) && IdentitiesReach(c) && p + 1 < |c.chunks|
    ensures Writable(c.(chunks := Exchanged(c.chunks, p))) && IdentitiesReach(c.(chunks := Exchanged(c.chunks, p)))
  {
    hide Intern, EdgeOk;
  }

  lemma InlineExchanged(c: Catalog, p: nat)
    requires Writable(c) && IdentitiesReach(c) && p + 1 < |c.inline|
    ensures Writable(c.(inline := Exchanged(c.inline, p))) && IdentitiesReach(c.(inline := Exchanged(c.inline, p)))
  {
    hide Intern, EdgeOk;
    var d := c.(inline := Exchanged(c.inline, p));
    assert BlobData(d.inline) == Exchanged(BlobData(c.inline), p);
    assert BlobStrings(d) == Exchanged(BlobStrings(c), p);
    ExchangedSize(BlobStrings(c), p);
  }

  lemma SymlinksExchanged(c: Catalog, p: nat)
    requires Writable(c) && IdentitiesReach(c) && p + 1 < |c.symlinks|
    ensures Writable(c.(symlinks := Exchanged(c.symlinks, p)))
    ensures IdentitiesReach(c.(symlinks := Exchanged(c.symlinks, p)))
  {
    hide Intern, EdgeOk;
    var d := c.(symlinks := Exchanged(c.symlinks, p));
    assert BlobData(d.symlinks) == Exchanged(BlobData(c.symlinks), p);
    assert BlobStrings(d) == Exchanged(BlobStrings(c), |c.inline| + p);
    ExchangedSize(BlobStrings(c), |c.inline| + p);
  }

  lemma XattrsExchanged(c: Catalog, p: nat)
    requires Writable(c) && IdentitiesReach(c) && p + 1 < |c.xattrs|
    requires XattrKey(c.xattrs[p]) == XattrKey(c.xattrs[p + 1])
    ensures Writable(c.(xattrs := Exchanged(c.xattrs, p))) && IdentitiesReach(c.(xattrs := Exchanged(c.xattrs, p)))
  {
    hide Intern, EdgeOk;
    var d, q := c.(xattrs := Exchanged(c.xattrs, p)), |c.inline| + |c.symlinks| + p;
    assert XattrNames(d.xattrs) == XattrNames(c.xattrs);
    assert XattrValues(d.xattrs) == Exchanged(XattrValues(c.xattrs), p);
    assert BlobStrings(d) == Exchanged(BlobStrings(c), q);
    ExchangedSize(BlobStrings(c), q);
  }

  lemma NestedExchanged(c: Catalog, p: nat)
    requires Writable(c) && IdentitiesReach(c) && p + 1 < |c.nested|
    requires NestedKey(c.nested[p]) == NestedKey(c.nested[p + 1])
    ensures Writable(c.(nested := Exchanged(c.nested, p))) && IdentitiesReach(c.(nested := Exchanged(c.nested, p)))
  {
    hide Intern, EdgeOk;
    var d := c.(nested := Exchanged(c.nested, p));
    assert NestedNames(d.nested) == NestedNames(c.nested);
    assert BlobStrings(d) == BlobStrings(c);
    assert NestedIdentities(d.nested) == Exchanged(NestedIdentities(c.nested), p);
    ExchangedSize(NestedIdentities(c.nested), p);
  }

  /** Two rows for one inode, in the two orders a sort may leave them. */
  const TIED := Catalog(Meta([], [], []), 1, 0, [], [], [], [BlobRec(1, [5]), BlobRec(1, [6])], [], [], [])

  const TIED_OTHERWISE := TIED.(inline := [BlobRec(1, [6]), BlobRec(1, [5])])

  lemma TiedWritable()
    ensures Writable(TIED) && IdentitiesReach(TIED) && Writable(TIED_OTHERWISE) && IdentitiesReach(TIED_OTHERWISE)
  {
    hide Intern;
    InternFew(BlobStrings(TIED));
    InternFew(BlobStrings(TIED_OTHERWISE));
    InternFew(NameStrings(TIED));
    InternFew(NameStrings(TIED_OTHERWISE));
  }

  /** An arena holds no more than the strings it was given. */
  lemma {:induction false} InternFew(strings: seq<Bytes>)
    requires forall k :: 0 <= k < |strings| ==> |strings[k]| <= 1
    ensures |Intern(strings).buf| <= |strings|
  {
    if strings != [] {
      InternFew(strings[..|strings| - 1]);
    }
  }

  /** For one: two bodies for one inode, and two correct sorts whose bytes differ. */
  lemma TiesShow()
    ensures SameRecords(TIED, TIED_OTHERWISE) && TIED.Sorted() && TIED_OTHERWISE.Sorted()
    ensures Encode(TIED) != Encode(TIED_OTHERWISE)
  {
    hide Encode, Writable;
    TiedWritable();
    if Encode(TIED) == Encode(TIED_OTHERWISE) {
      EncodeInjective(TIED, TIED_OTHERWISE);
    }
    LessIrreflexive([]);
    assert TIED.inline == [TIED.inline[0]] + [TIED.inline[1]];
    assert TIED_OTHERWISE.inline == [TIED.inline[1]] + [TIED.inline[0]];
  }
}
