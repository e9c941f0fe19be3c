/**
  A catalog's queries as finite maps: what was added, in any order, is what comes back.  And the
  order check: which writers' catalogs pass it.
 */
module StaticMaps {
  import opened Bytes
  import opened LittleEndian
  import opened SortKeys
  import opened Arena
  import opened CatalogRecords
  import opened StaticFormat
  import opened StaticEncoding
  import opened StaticWriter
  import opened Scanning
  import opened KeyedRecords
  import opened StaticView
  import opened StaticQueries
  import opened StaticLayout
  import opened StaticRoundTrip
  import opened StaticBytes

  // ---------- The order check ----------

  /** Keys the order check compares; it lets the other arrays hold an inode twice. */
  ghost predicate CheckedKeysDistinct(c: Catalog) {
    && SortKeys.DistinctKeys(c.edges, EdgeKey) && SortKeys.DistinctKeys(c.chunks, ChunkKey)
    && SortKeys.DistinctKeys(c.nested, NestedKey)
  }

  /** xs sit where recs' keys say. */
  ghost predicate SitAt<T, R>(raws: seq<R>, at: R -> Site, recs: seq<T>, key: T -> SortKey) {
    && |raws| == |recs|
    && forall i :: 0 <= i < |recs| ==>
         key(recs[i]).idx == 0 && at(raws[i]).parent == key(recs[i]).inode && at(raws[i]).name == Some(key(recs[i]).name)
  }

  lemma InPlaceExactly<T, R>(raws: seq<R>, at: R -> Site, recs: seq<T>, key: T -> SortKey)
    requires SitAt(raws, at, recs, key) && SortKeys.Sorted(recs, key)
    ensures InPlace(raws, at) <==> SortKeys.DistinctKeys(recs, key)
  {
    if SortKeys.DistinctKeys(recs, key) {
      SortedDistinctAscends(recs, key);
    }
    if InPlace(raws, at) {
      forall i, j | 0 <= i < j < |recs|
        ensures key(recs[i]) != key(recs[j])
      {
        FollowsFar(raws, at, i, j);
        LessIrreflexive(key(recs[i]).name);
      }
    }
  }

  lemma {:induction false} ChunksFar(cs: seq<Chunk>, i: nat, j: nat)
    requires forall k :: 0 < k < |cs| ==> ChunkPair(cs[k - 1], cs[k])
    requires SortKeys.Sorted(cs, ChunkKey) && i < j < |cs| && cs[i].inode == cs[j].inode
    ensures cs[i].idx < cs[j].idx
    decreases j
  {
    if i < j - 1 {
      assert !Before(ChunkKey(cs[j - 1]), ChunkKey(cs[i])) && !Before(ChunkKey(cs[j]), ChunkKey(cs[j - 1]));
      ChunksFar(cs, i, j - 1);
    }
  }

  lemma ChunksExactly(cs: seq<Chunk>)
    requires SortKeys.Sorted(cs, ChunkKey)
    ensures (forall k :: 0 < k < |cs| ==> ChunkPair(cs[k - 1], cs[k])) <==> SortKeys.DistinctKeys(cs, ChunkKey)
  {
    if SortKeys.DistinctKeys(cs, ChunkKey) {
      SortedDistinctAscends(cs, ChunkKey);
      forall k | 0 < k < |cs|
        ensures ChunkPair(cs[k - 1], cs[k])
      {
        assert Before(ChunkKey(cs[k - 1]), ChunkKey(cs[k]));
        LessIrreflexive([]);
      }
    }
    if forall k :: 0 < k < |cs| ==> ChunkPair(cs[k - 1], cs[k]) {
      forall i, j | 0 <= i < j < |cs|
        ensures ChunkKey(cs[i]) != ChunkKey(cs[j])
      {
        if cs[i].inode == cs[j].inode {
          ChunksFar(cs, i, j);
        }
      }
    }
  }

  lemma SortedClimbs<T, R>(raws: seq<R>, inode: R -> i64, recs: seq<T>, key: T -> SortKey)
    requires |raws| == |recs| && SortKeys.Sorted(recs, key)
    requires forall i :: 0 <= i < |recs| ==> inode(raws[i]) == key(recs[i]).inode
    ensures Climbs(raws, inode)
  {
  }

  /** The position of each edge's node fits the 32 bits an edge has for it; the writer does not look. */
  ghost predicate NodesReach(c: Catalog) {
    forall i :: 0 <= i < |c.edges| ==>
      match NodeIndex(c.nodes, c.edges[i].inode) case Some(k) => k < U32_RANGE case None => true
  }

  /** What is kept of the position leads to a node of the edge's inode all the same. */
  ghost predicate SlotsPoint(c: Catalog) {
    forall i :: 0 <= i < |c.edges| ==> SlotPoints(c.edges[i], c.nodes)
  }

  ghost predicate SlotPoints(e: Edge, nodes: seq<Node>) {
    var s := NodeSlot(nodes, e.inode);
    s < |nodes| && nodes[s].inode == e.inode
  }

  /** Of distinct nodes the 32 bits lead to the right one exactly when they held the whole position. */
  lemma SlotsPointExactly(c: Catalog)
    requires Encodable(c)
    ensures NodesReach(c) ==> SlotsPoint(c)
    ensures SortKeys.DistinctKeys(c.nodes, NodeKey) ==> (SlotsPoint(c) <==> NodesReach(c))
  {
    hide Names, Blobs;
    forall i | 0 <= i < |c.edges|
      ensures var k := NodeIndex(c.nodes, c.edges[i].inode);
        && k.Some? && (k.value < U32_RANGE ==> SlotPoints(c.edges[i], c.nodes))
        && (SortKeys.DistinctKeys(c.nodes, NodeKey) && SlotPoints(c.edges[i], c.nodes) ==> k.value < U32_RANGE)
    {
      assert EdgeOk(c.edges[i], c.nodes);
      var k := NodeIndex(c.nodes, c.edges[i].inode).value;
      var s := NodeSlot(c.nodes, c.edges[i].inode);
      if k >= U32_RANGE {
        assert s < k;
        assert SortKeys.DistinctKeys(c.nodes, NodeKey) ==> NodeKey(c.nodes[s]) != NodeKey(c.nodes[k]);
      }
    }
  }

  /**
    What a writer leaves passes the order check exactly when no edge, chunk or nested key was added
    twice and every edge's 32 bits lead to its node; a second node, inline, symlink or xattr row goes
    unnoticed.
   */
  lemma PassesExactly(v: View, c: Catalog)
    requires Shows(v, c) && c.Sorted()
    ensures Ordered(v) <==> CheckedKeysDistinct(c) && SlotsPoint(c)
  {
    hide SortKeys.DistinctKeys, SortKeys.Sorted, InPlace, Climbs, SlotsPoint;
    PlacesExactly(v, c);
    ChunksExactly(c.chunks);
    ArraysClimb(v, c);
    EdgesPoint(v, c);
  }

  lemma PlacesExactly(v: View, c: Catalog)
    requires Shows(v, c) && c.Sorted()
    ensures InPlace(v.edges, EdgeSite) <==> SortKeys.DistinctKeys(c.edges, EdgeKey)
    ensures InPlace(v.nested, NestedSite) <==> SortKeys.DistinctKeys(c.nested, NestedKey)
  {
    hide SortKeys.DistinctKeys, SortKeys.Sorted, InPlace;
    InPlaceExactly(v.edges, EdgeSite, c.edges, EdgeKey);
    InPlaceExactly(v.nested, NestedSite, c.nested, NestedKey);
  }

  lemma ArraysClimb(v: View, c: Catalog)
    requires Shows(v, c) && c.Sorted()
    ensures Climbs(v.nodes, NodeInode) && Climbs(v.inline, BlobInode) && Climbs(v.symlinks, BlobInode)
    ensures Climbs(v.chunks, ChunkInode) && Climbs(v.xattrs, XattrInode)
  {
    hide SortKeys.Sorted, Climbs;
    SortedClimbs(v.nodes, NodeInode, c.nodes, NodeKey);
    SortedClimbs(v.inline, BlobInode, c.inline, BlobKey);
    SortedClimbs(v.symlinks, BlobInode, c.symlinks, BlobKey);
    SortedClimbs(v.chunks, ChunkInode, c.chunks, ChunkKey);
    SortedClimbs(v.xattrs, XattrInode, c.xattrs, XattrKey);
  }

  /** Where every edge's stored index leads. */
  lemma EdgesPoint(v: View, c: Catalog)
    requires Shows(v, c)
    ensures (forall i :: 0 <= i < |v.edges| ==> EdgePoints(v.edges[i], v.nodes)) <==> SlotsPoint(c)
  {
    hide Intern, NodeSlot;
    forall i | 0 <= i < |v.edges|
      ensures EdgePoints(v.edges[i], v.nodes) <==> SlotPoints(c.edges[i], c.nodes)
    {
    }
  }

  lemma AtEach<R>(raws: seq<R>, at: R -> Site, parent: i64, name: Bytes)
    ensures forall i :: 0 <= i < |raws| ==>
      IsAt(at, parent, name)(raws[i]) == (at(raws[i]) == Site(parent, Some(name)))
  {
  }

  lemma UnderEach<R>(raws: seq<R>, at: R -> Site, parent: i64)
    ensures forall i :: 0 <= i < |raws| ==> IsUnder(at, parent)(raws[i]) == (at(raws[i]).parent == parent)
  {
  }

  lemma OfEach<R>(raws: seq<R>, key: R -> i64, inode: i64)
    ensures forall i :: 0 <= i < |raws| ==> IsOf(key, inode)(raws[i]) == (key(raws[i]) == inode)
  {
  }

  // ---------- Queries of one key ----------

  ghost function At(inode: i64): SortKey { SortKey(inode, 0, []) }

  ghost function Under(parent: i64, name: Bytes): SortKey { SortKey(parent, 0, name) }

  /** Both maps are asked; a transition point is in both. */
  ghost function LookupAnswer(edges: map<SortKey, Edge>, nested: map<SortKey, Nested>, parent: i64, name: Bytes)
    : Result<LookupResult, ReadError>
  {
    var k := Under(parent, name);
    if k !in edges && k !in nested then Err(NotExist)
    else Ok(LookupResult(if k in edges then Some(Dirent(name, edges[k].inode, edges[k].typ)) else None,
                         if k in nested then Some(nested[k].identity) else None))
  }

  lemma LookupIsMap(v: View, c: Catalog, parent: i64, name: Bytes)
    requires Shows(v, c) && c.DistinctKeys()
    ensures LookupScan(v, parent, name) == LookupAnswer(ByKey(c.edges, EdgeKey), ByKey(c.nested, NestedKey), parent, name)
  {
    hide First, ByKey, SortKeys.DistinctKeys;
    var k := Under(parent, name);
    AtEach(v.edges, EdgeSite, parent, name);
    FirstByKey(v.edges, IsAt(EdgeSite, parent, name), c.edges, EdgeKey, k);
    AtEach(v.nested, NestedSite, parent, name);
    FirstByKey(v.nested, IsAt(NestedSite, parent, name), c.nested, NestedKey, k);
    ByKeyHolds(c.edges, EdgeKey);
    ByKeyHolds(c.nested, NestedKey);
  }

  lemma StatIsMap(v: View, c: Catalog, inode: i64)
    requires Shows(v, c) && c.DistinctKeys()
    ensures var m := ByKey(c.nodes, NodeKey);
      StatScan(v, inode) == if At(inode) in m then Ok(m[At(inode)]) else Err(NotExist)
  {
    hide First, ByKey, SortKeys.DistinctKeys;
    OfEach(v.nodes, NodeInode, inode);
    FirstByKey(v.nodes, IsOf(NodeInode, inode), c.nodes, NodeKey, At(inode));
  }

  lemma BlobIsMap(raws: seq<RawBlob>, bs: seq<BlobRec>, inode: i64)
    requires |raws| == |bs| && SortKeys.DistinctKeys(bs, BlobKey)
    requires forall i :: 0 <= i < |bs| ==> raws[i] == BlobShown(bs[i])
    ensures var m := ByKey(bs, BlobKey);
      BlobScan(raws, inode) == Ok(if At(inode) in m then Some(m[At(inode)].data) else None)
  {
    hide First, ByKey, SortKeys.DistinctKeys;
    OfEach(raws, BlobInode, inode);
    FirstByKey(raws, IsOf(BlobInode, inode), bs, BlobKey, At(inode));
  }

  lemma SymlinkIsMap(v: View, c: Catalog, inode: i64)
    requires Shows(v, c) && c.DistinctKeys()
    ensures var m := ByKey(c.symlinks, BlobKey);
      SymlinkScan(v, inode) == if At(inode) in m then Ok(m[At(inode)].data) else Err(NotExist)
  {
    hide First, ByKey, SortKeys.DistinctKeys, BlobScan;
    BlobIsMap(v.symlinks, c.symlinks, inode);
  }

  // ---------- Listings ----------

  function ShowDirent(e: Edge): Option<Dirent> { Some(Dirent(e.name, e.inode, e.typ)) }

  function ShowNested(n: Nested): Option<NestedEntry> { Some(NestedEntry(n.name, n.identity)) }

  function ShowXattr(x: Xattr): Option<XattrEntry> { Some(XattrEntry(x.name, x.value)) }

  /** An entry together with the node of its inode. */
  ghost function ShowJoined(nodes: map<SortKey, Node>): Edge -> Option<DirentNode> {
    (e: Edge) => if At(e.inode) in nodes then Some(DirentNode(e.name, nodes[At(e.inode)])) else None
  }

  lemma NestedIsMap(v: View, c: Catalog, parent: i64)
    requires Shows(v, c) && c.Ascending()
    ensures NestedScan(v, parent).Ok?
    ensures Listing(NestedScan(v, parent).value, ByKey(c.nested, NestedKey), parent, ShowNested)
  {
    hide Scan, ByKey, SortKeys.Ascending, Listing;
    UnderEach(v.nested, NestedSite, parent);
    ScanLists(v.nested, IsUnder(NestedSite, parent), NestedEntryOf, c.nested, NestedKey, ShowNested, parent);
  }

  lemma ReaddirIsMap(v: View, c: Catalog, parent: i64)
    requires Shows(v, c) && c.Ascending()
    ensures ReaddirScan(v, parent).Ok?
    ensures Listing(ReaddirScan(v, parent).value.0, ByKey(c.edges, EdgeKey), parent, ShowDirent)
    ensures Listing(ReaddirScan(v, parent).value.1, ByKey(c.nested, NestedKey), parent, ShowNested)
  {
    hide Scan, ByKey, SortKeys.Ascending, Listing, NestedScan;
    UnderEach(v.edges, EdgeSite, parent);
    ScanLists(v.edges, IsUnder(EdgeSite, parent), DirentOf, c.edges, EdgeKey, ShowDirent, parent);
    NestedIsMap(v, c, parent);
  }

  lemma ReaddirPlusIsMap(v: View, c: Catalog, parent: i64)
    requires Shows(v, c) && c.Ascending() && SlotsPoint(c)
    ensures ReaddirPlusScan(v, parent).Ok?
    ensures Listing(ReaddirPlusScan(v, parent).value, ByKey(c.edges, EdgeKey), parent, ShowJoined(ByKey(c.nodes, NodeKey)))
  {
    hide Scan, ByKey, SortKeys.Ascending, Listing, EdgeShown, SlotsPoint;
    var m := ByKey(c.nodes, NodeKey);
    AscendingDistinct(c.nodes, NodeKey);
    ByKeyHolds(c.nodes, NodeKey);
    EdgesPoint(v, c);
    UnderEach(v.edges, EdgeSite, parent);
    forall i | 0 <= i < |v.edges|
      ensures JoinedBy(v.nodes)(v.edges[i]).Some? && JoinedBy(v.nodes)(v.edges[i]) == ShowJoined(m)(c.edges[i])
      ensures IsUnder(EdgeSite, parent)(v.edges[i]) == (EdgeKey(c.edges[i]).inode == parent)
    {
      EdgeFields(c.edges[i], c.nodes);
      assert EdgePoints(v.edges[i], v.nodes);
      var n := c.nodes[v.edges[i].node];
      assert NodeKey(n) == At(c.edges[i].inode);
    }
    ScanLists(v.edges, IsUnder(EdgeSite, parent), JoinedBy(v.nodes), c.edges, EdgeKey, ShowJoined(m), parent);
  }

  lemma EdgeFields(e: Edge, nodes: seq<Node>)
    ensures var s := EdgeShown(e, nodes); s.name == Some(e.name) && s.inode == e.inode && s.parent == e.parent
  {
  }

  lemma XattrsIsMap(v: View, c: Catalog, inode: i64)
    requires Shows(v, c) && c.Ascending()
    ensures XattrsScan(v, inode).Ok?
    ensures Listing(XattrsScan(v, inode).value, ByKey(c.xattrs, XattrKey), inode, ShowXattr)
  {
    hide Scan, ByKey, SortKeys.Ascending, Listing;
    OfEach(v.xattrs, XattrInode, inode);
    ScanLists(v.xattrs, IsOf(XattrInode, inode), XattrEntryOf, c.xattrs, XattrKey, ShowXattr, inode);
  }

  /** The chunk list of an inode is its entries in index order. */
  lemma ChunkListIsMap(v: View, c: Catalog, inode: i64)
    requires Shows(v, c) && c.Ascending()
    ensures Listing(ChunkList(v.chunks, inode), ByKey(c.chunks, ChunkKey), inode, Itself)
  {
    hide Scan, ByKey, SortKeys.Ascending, Listing;
    OfEach(v.chunks, ChunkInode, inode);
    ScanLists(v.chunks, IsOf(ChunkInode, inode), Itself, c.chunks, ChunkKey, Itself, inode);
  }

  /** An inode's chunks: the map's entries in index order, given that they fill its node. */
  ghost predicate ChunksAnswer(r: Result<Option<seq<Extent>>, ReadError>, chunks: map<SortKey, Chunk>,
                               nodes: map<SortKey, Node>, inode: i64) {
    exists cs: seq<Chunk> :: Listing(cs, chunks, inode, Itself) &&
      r == if cs == [] then Ok(None)
           else if At(inode) !in nodes then Err(NoNodeForChunks)
           else if Total(cs) != nodes[At(inode)].length then Err(LengthMismatch)
           else Ok(Some(Extents(cs)))
  }

  lemma ChunksIsMap(v: View, c: Catalog, inode: i64)
    requires Shows(v, c) && c.Ascending() && c.DistinctKeys()
    ensures ChunksAnswer(ChunksScan(v, inode), ByKey(c.chunks, ChunkKey), ByKey(c.nodes, NodeKey), inode)
  {
    hide Scan, ByKey, SortKeys.Ascending, SortKeys.DistinctKeys, Listing, StatScan, ChunkList, Total, Extents;
    ChunkListIsMap(v, c, inode);
    StatIsMap(v, c, inode);
  }

  // ---------- Inline data ----------

  /** Some string that goes to the blob arena is not empty. */
  ghost predicate AnyBlob(c: Catalog) {
    AnyFilled(BlobStrings(c))
  }

  /** What a map of the inline rows would answer. */
  ghost function InlineAnswer(inline: map<SortKey, BlobRec>, inode: i64): Result<Option<Bytes>, ReadError> {
    Ok(if At(inode) in inline then Some(inline[At(inode)].data) else None)
  }

  /**
    Inline data comes back as added, except that an inode whose row is empty in a catalog without a
    single non-empty blob string reads as having no row.
   */
  lemma InlineIsMapExactly(v: View, c: Catalog, inode: i64)
    requires Shows(v, c) && c.DistinctKeys()
    ensures InlineScan(v, inode) == InlineAnswer(ByKey(c.inline, BlobKey), inode) <==>
            (At(inode) in ByKey(c.inline, BlobKey) ==> AnyBlob(c))
    ensures InlineScan(v, inode) != InlineAnswer(ByKey(c.inline, BlobKey), inode) ==> InlineScan(v, inode) == Ok(None)
  {
    hide First, ByKey, SortKeys.DistinctKeys, BlobScan, Intern;
    BlobIsMap(v.inline, c.inline, inode);
    ArenaEmptyExactly(BlobStrings(c));
  }

  /** The smallest catalog that loses a row: one file, an empty body, nothing else to store. */
  const EMPTY_BODY :=
    Catalog(Meta([], [], []), 1, 0, [Node(1, 8, 420, 0, 0, 0, 0, 1, 0, 0, 0, 0)], [], [], [BlobRec(1, [])], [], [], [])

  lemma EmptyBodyStrings()
    ensures Intern(BlobStrings(EMPTY_BODY)) == EMPTY && Intern(NameStrings(EMPTY_BODY)) == EMPTY
    ensures !AnyBlob(EMPTY_BODY)
  {
    assert BlobStrings(EMPTY_BODY) == [[], [], [], []];
    ArenaEmptyExactly(BlobStrings(EMPTY_BODY));
    assert NameStrings(EMPTY_BODY) == [];
  }

  lemma EmptyBodyWritable()
    ensures Writable(EMPTY_BODY) && IdentitiesReach(EMPTY_BODY) && EMPTY_BODY.Ascending() && EMPTY_BODY.DistinctKeys()
  {
    EmptyBodyStrings();
    assert NestedIdentities(EMPTY_BODY.nested) == [];
    assert Identities(EMPTY_BODY).buf == [];
    hide Intern;
    assert Encodable(EMPTY_BODY);
  }

  lemma EmptyBodyKept()
    ensures At(1) in ByKey(EMPTY_BODY.inline, BlobKey) && ByKey(EMPTY_BODY.inline, BlobKey)[At(1)].data == []
  {
  }

  /** It writes and opens, and its row is gone. */
  lemma EmptyInlineBodyLost()
    ensures Writable(EMPTY_BODY) && EMPTY_BODY.DistinctKeys() && SectionsOf(EMPTY_BODY).Usable()
    ensures InlineAnswer(ByKey(EMPTY_BODY.inline, BlobKey), 1) == Ok(Some([]))
    ensures InlineScan(ViewOf(SectionsOf(EMPTY_BODY)), 1) == Ok(None)
  {
    hide Writable, Intern, ByKey, SectionsOf, Shows, ViewOf, InlineScan, AnyBlob;
    EmptyBodyStrings();
    EmptyBodyWritable();
    EmptyBodyKept();
    EncodedShows(EMPTY_BODY);
    InlineIsMapExactly(ViewOf(SectionsOf(EMPTY_BODY)), EMPTY_BODY, 1);
  }

  // ---------- The round trip ----------

  /** Every answer about one inode, or one directory, as maps of the records added give it. */
  ghost predicate AnswersAt(v: View, added: Catalog, inode: i64) {
    var edges, nodes := ByKey(added.edges, EdgeKey), ByKey(added.nodes, NodeKey);
    var nested, chunks := ByKey(added.nested, NestedKey), ByKey(added.chunks, ChunkKey);
    var inline, symlinks := ByKey(added.inline, BlobKey), ByKey(added.symlinks, BlobKey);
    && ReaddirScan(v, inode).Ok? && Listing(ReaddirScan(v, inode).value.0, edges, inode, ShowDirent)
    && Listing(ReaddirScan(v, inode).value.1, nested, inode, ShowNested)
    && NestedScan(v, inode).Ok? && Listing(NestedScan(v, inode).value, nested, inode, ShowNested)
    && ReaddirPlusScan(v, inode).Ok? && Listing(ReaddirPlusScan(v, inode).value, edges, inode, ShowJoined(nodes))
    && StatScan(v, inode) == (if At(inode) in nodes then Ok(nodes[At(inode)]) else Err(NotExist))
    && ChunksAnswer(ChunksScan(v, inode), chunks, nodes, inode)
    && (InlineScan(v, inode) == InlineAnswer(inline, inode) <==> (At(inode) in inline ==> AnyBlob(added)))
    && SymlinkScan(v, inode) == (if At(inode) in symlinks then Ok(symlinks[At(inode)].data) else Err(NotExist))
    && XattrsScan(v, inode).Ok?
    && Listing(XattrsScan(v, inode).value, ByKey(added.xattrs, XattrKey), inode, ShowXattr)
  }

  ghost predicate AnswersAsMaps(v: View, added: Catalog) {
    && (forall parent: i64, name: Bytes :: LookupScan(v, parent, name)
          == LookupAnswer(ByKey(added.edges, EdgeKey), ByKey(added.nested, NestedKey), parent, name))
    && (forall inode: i64 :: AnswersAt(v, added, inode))
  }

  lemma SortedAnswersAt(v: View, c: Catalog, inode: i64)
    requires Shows(v, c) && c.Ascending() && c.DistinctKeys() && SlotsPoint(c)
    ensures AnswersAt(v, c, inode)
  {
    hide Shows, Scan, First, ByKey, Listing, SlotsPoint, SortKeys.Ascending, SortKeys.DistinctKeys, ReaddirScan, NestedScan,
         ReaddirPlusScan, StatScan, ChunksScan, InlineScan, SymlinkScan, XattrsScan, ChunksAnswer, AnyBlob, InlineAnswer;
    ReaddirIsMap(v, c, inode);
    NestedIsMap(v, c, inode);
    ReaddirPlusIsMap(v, c, inode);
    StatIsMap(v, c, inode);
    ChunksIsMap(v, c, inode);
    InlineIsMapExactly(v, c, inode);
    SymlinkIsMap(v, c, inode);
    XattrsIsMap(v, c, inode);
  }

  lemma SortedAnswers(v: View, c: Catalog)
    requires Shows(v, c) && c.Ascending() && SlotsPoint(c)
    ensures AnswersAsMaps(v, c)
  {
    hide Shows, ByKey, SlotsPoint, LookupScan, LookupAnswer, AnswersAt;
    DistinctThroughout(c);
    forall parent: i64, name: Bytes
      ensures LookupScan(v, parent, name) == LookupAnswer(ByKey(c.edges, EdgeKey), ByKey(c.nested, NestedKey), parent, name)
    {
      LookupIsMap(v, c, parent, name);
    }
    forall inode: i64
      ensures AnswersAt(v, c, inode)
    {
      SortedAnswersAt(v, c, inode);
    }
  }

  lemma DistinctThroughout(c: Catalog)
    requires c.Ascending()
    ensures c.DistinctKeys()
  {
    AscendingDistinct(c.nodes, NodeKey);
    AscendingDistinct(c.edges, EdgeKey);
    AscendingDistinct(c.chunks, ChunkKey);
    AscendingDistinct(c.inline, BlobKey);
    AscendingDistinct(c.symlinks, BlobKey);
    AscendingDistinct(c.xattrs, XattrKey);
    AscendingDistinct(c.nested, NestedKey);
  }

  lemma MapsPermuted(added: Catalog, c: Catalog)
    requires added.DistinctKeys() && SameRecords(added, c)
    ensures ByKey(added.nodes, NodeKey) == ByKey(c.nodes, NodeKey)
    ensures ByKey(added.edges, EdgeKey) == ByKey(c.edges, EdgeKey)
    ensures ByKey(added.chunks, ChunkKey) == ByKey(c.chunks, ChunkKey)
    ensures ByKey(added.inline, BlobKey) == ByKey(c.inline, BlobKey)
    ensures ByKey(added.symlinks, BlobKey) == ByKey(c.symlinks, BlobKey)
    ensures ByKey(added.xattrs, XattrKey) == ByKey(c.xattrs, XattrKey)
    ensures ByKey(added.nested, NestedKey) == ByKey(c.nested, NestedKey)
  {
    hide ByKey;
    ByKeyPermuted(added.nodes, c.nodes, NodeKey);
    ByKeyPermuted(added.edges, c.edges, EdgeKey);
    ByKeyPermuted(added.chunks, c.chunks, ChunkKey);
    ByKeyPermuted(added.inline, c.inline, BlobKey);
    ByKeyPermuted(added.symlinks, c.symlinks, BlobKey);
    ByKeyPermuted(added.xattrs, c.xattrs, XattrKey);
    ByKeyPermuted(added.nested, c.nested, NestedKey);
  }

  /** Whether the blob arena stays empty does not depend on the order of the calls. */
  lemma BlobsPermuted(added: Catalog, c: Catalog)
    requires SameRecords(added, c)
    ensures AnyBlob(added) ==> AnyBlob(c)
  {
    if AnyBlob(added) {
      var s :| s in BlobStrings(added) && s != [];
      if i :| 0 <= i < |added.inline| && added.inline[i].data == s {
        assert added.inline[i] in multiset(c.inline);
        var j :| 0 <= j < |c.inline| && c.inline[j] == added.inline[i];
        assert BlobData(c.inline)[j] == s;
      } else if i :| 0 <= i < |added.symlinks| && added.symlinks[i].data == s {
        assert added.symlinks[i] in multiset(c.symlinks);
        var j :| 0 <= j < |c.symlinks| && c.symlinks[j] == added.symlinks[i];
        assert BlobData(c.symlinks)[j] == s;
      } else if i :| 0 <= i < |added.xattrs| && added.xattrs[i].value == s {
        assert added.xattrs[i] in multiset(c.xattrs);
        var j :| 0 <= j < |c.xattrs| && c.xattrs[j] == added.xattrs[i];
        assert XattrValues(c.xattrs)[j] == s;
      }
      assert s in BlobStrings(c);
    }
  }

  lemma NamesPermuted(added: Catalog, c: Catalog)
    requires SameRecords(added, c)
    ensures AnyFilled(NameStrings(added)) ==> AnyFilled(NameStrings(c))
  {
    if AnyFilled(NameStrings(added)) {
      var s :| s in NameStrings(added) && s != [];
      if i :| 0 <= i < |added.edges| && added.edges[i].name == s {
        assert added.edges[i] in multiset(c.edges);
        var j :| 0 <= j < |c.edges| && c.edges[j] == added.edges[i];
        assert EdgeNames(c.edges)[j] == s;
      } else if i :| 0 <= i < |added.xattrs| && added.xattrs[i].name == s {
        assert added.xattrs[i] in multiset(c.xattrs);
        var j :| 0 <= j < |c.xattrs| && c.xattrs[j] == added.xattrs[i];
        assert XattrNames(c.xattrs)[j] == s;
      } else if i :| 0 <= i < |added.nested| && added.nested[i].name == s {
        assert added.nested[i] in multiset(c.nested);
        var j :| 0 <= j < |c.nested| && c.nested[j] == added.nested[i];
        assert NestedNames(c.nested)[j] == s;
      }
      assert s in NameStrings(c);
    }
  }

  lemma SameFilled<T>(a: seq<T>, b: seq<T>)
    requires multiset(a) == multiset(b)
    ensures |a| == |b|
  {
    assert |multiset(a)| == |a| && |multiset(b)| == |b|;
  }

  lemma SameLengths(added: Catalog, c: Catalog)
    requires SameRecords(added, c)
    ensures |added.edges| == |c.edges| && |added.nodes| == |c.nodes| && |added.chunks| == |c.chunks|
    ensures |added.inline| == |c.inline| && |added.xattrs| == |c.xattrs| && |added.symlinks| == |c.symlinks|
    ensures |added.nested| == |c.nested|
    ensures added.meta == c.meta && added.rootInode == c.rootInode && added.inlineMax == c.inlineMax
  {
    SameFilled(added.edges, c.edges);
    SameFilled(added.nodes, c.nodes);
    SameFilled(added.chunks, c.chunks);
    SameFilled(added.inline, c.inline);
    SameFilled(added.xattrs, c.xattrs);
    SameFilled(added.symlinks, c.symlinks);
    SameFilled(added.nested, c.nested);
  }

  lemma ArenasPermuted(added: Catalog, c: Catalog)
    requires SameRecords(added, c)
    ensures AnyFilled(NameStrings(added)) <==> AnyFilled(NameStrings(c))
    ensures AnyFilled(BlobStrings(added)) <==> AnyFilled(BlobStrings(c))
  {
    hide AnyFilled, NameStrings, BlobStrings;
    NamesPermuted(added, c);
    NamesPermuted(c, added);
    BlobsPermuted(added, c);
    BlobsPermuted(c, added);
  }

  /** What a header tells of sorted records it tells of the same records as they were added. */
  lemma TellsPermuted(h: Header, c: Catalog, added: Catalog)
    requires Tells(h, c) && SameRecords(added, c)
    ensures Tells(h, added)
  {
    hide NameStrings, BlobStrings, AnyFilled, ToI64, SameRecords;
    ArenasPermuted(added, c);
    SameLengths(added, c);
  }

  /**
    The round trip: records added in any order under distinct keys, sorted by any correct sort and
    encoded, open, with a header that tells the truth about them: bit 0 of its flags is set exactly when
    some attribute was added.  The reader passes the order check exactly when the positions edges keep of their
    nodes fit 32 bits.  Then it answers as maps of what was added exactly when the slots of the
    locators' identities fit 32 bits too; whether they do or not, as maps of what the slots name.
   */
  lemma RoundTrip(added: Catalog, c: Catalog)
    requires added.DistinctKeys() && SameRecords(added, c) && c.Sorted() && Writable(c)
    ensures ArenasFit(Encode(c)) && Parse(Encode(c)).Ok? && Parse(Encode(c)).value.meta == added.meta
    ensures var h := Parse(Encode(c)).value.header;
      && HeaderAt(Encode(c), h) && Tells(h, added) && (h.flags % 2 == 1 <==> exists x :: x in added.xattrs)
    ensures var v := ViewOf(Parse(Encode(c)).value.sec);
      && Parse(Encode(c)).value.sec.Usable() && (Ordered(v) <==> NodesReach(c))
      && (NodesReach(c) ==> (AnswersAsMaps(v, added) <==> IdentitiesReach(c)) && AnswersAsMaps(v, AsNamed(c)))
  {
    hide Shows, Encodable, NodesReach, SectionsOf, Encode, Parse, ArenasFit, AnswersAsMaps, Ordered, SortKeys.DistinctKeys,
         SortKeys.Ascending, SortKeys.Sorted, AsNamed, IdentitiesReach, ViewOf, Allocatable, HeaderOf, HeaderAt, Tells,
         NonEmpty, AllSections;
    EncodedParses(c);
    HeaderReads(c);
    EncodedTells(c);
    TellsPermuted(DecodeHeader(Encode(c)).value, c, added);
    FlagTells(DecodeHeader(Encode(c)).value, added);
    EncodedShows(c);
    SortedCatalogsAgree(added, c, added, c);
    AnswersExactly(ViewOf(SectionsOf(c)), added, c);
  }

  lemma FlagTells(h: Header, added: Catalog)
    requires Tells(h, added)
    ensures h.flags % 2 == 1 <==> exists x :: x in added.xattrs
  {
    if added.xattrs != [] {
      assert added.xattrs[0] in added.xattrs;
    }
  }

  lemma AnswersExactly(v: View, added: Catalog, c: Catalog)
    requires added.DistinctKeys() && SameRecords(added, c) && c.Sorted() && c.Ascending()
    requires WellFormed(c) && Encodable(c) && Shows(v, AsNamed(c))
    ensures Ordered(v) <==> NodesReach(c)
    ensures NodesReach(c) ==> (AnswersAsMaps(v, added) <==> IdentitiesReach(c)) && AnswersAsMaps(v, AsNamed(c))
  {
    hide Shows, Encodable, NodesReach, SlotsPoint, AnswersAsMaps, Ordered, SortKeys.DistinctKeys, SortKeys.Ascending,
         SortKeys.Sorted, AsNamed, IdentitiesReach, SameRecords, CheckedKeysDistinct;
    DistinctThroughout(c);
    NamedInOrder(c);
    NamedExactly(c);
    PassesExactly(v, AsNamed(c));
    SlotsPointExactly(c);
    if NodesReach(c) {
      SortedAnswers(v, AsNamed(c));
      if AnswersAsMaps(v, added) {
        SameBack(added, c);
        AnswersPermuted(v, added, c);
        NamedAlone(v, c);
      } else if IdentitiesReach(c) {
        AnswersPermuted(v, c, added);
      }
    }
  }

  lemma SameBack(a: Catalog, b: Catalog)
    requires SameRecords(a, b)
    ensures SameRecords(b, a)
  {
  }

  lemma NamedAlone(v: View, c: Catalog)
    requires c.Ascending() && c.Sorted() && AnswersAsMaps(v, AsNamed(c)) && AnswersAsMaps(v, c)
    ensures AsNamed(c) == c
  {
    hide AnswersAsMaps, ReadBack, SortKeys.DistinctKeys, SortKeys.Ascending, SortKeys.Sorted;
    DistinctThroughout(c);
    NamedInOrder(c);
    SameLocators(v, AsNamed(c), c);
  }

  /** The identities a locator names have no part in its key. */
  lemma NamedInOrder(c: Catalog)
    requires c.Ascending() && c.Sorted()
    ensures AsNamed(c).Ascending() && AsNamed(c).Sorted() && (SlotsPoint(AsNamed(c)) <==> SlotsPoint(c))
    ensures CheckedKeysDistinct(AsNamed(c))
  {
    hide ReadBack, Before;
  }

  /** Answers as two maps that differ in identities at most show the identities of both. */
  lemma SameLocators(v: View, a: Catalog, b: Catalog)
    requires AnswersAsMaps(v, a) && AnswersAsMaps(v, b) && b == a.(nested := b.nested) && |a.nested| == |b.nested|
    requires SortKeys.DistinctKeys(a.nested, NestedKey) && SortKeys.DistinctKeys(b.nested, NestedKey)
    requires forall i :: 0 <= i < |a.nested| ==> b.nested[i] == a.nested[i].(identity := b.nested[i].identity)
    ensures a == b
  {
    hide AnswersAt, ByKey, LookupScan, SortKeys.DistinctKeys;
    ByKeyHolds(a.nested, NestedKey);
    ByKeyHolds(b.nested, NestedKey);
    forall i | 0 <= i < |a.nested|
      ensures a.nested[i] == b.nested[i]
    {
      var n := a.nested[i];
      assert NestedKey(n) == Under(n.parent, n.name) && NestedKey(b.nested[i]) == Under(n.parent, n.name);
      assert LookupAnswer(ByKey(a.edges, EdgeKey), ByKey(a.nested, NestedKey), n.parent, n.name)
        == LookupScan(v, n.parent, n.name)
        == LookupAnswer(ByKey(b.edges, EdgeKey), ByKey(b.nested, NestedKey), n.parent, n.name);
    }
  }

  lemma AnswersPermuted(v: View, c: Catalog, added: Catalog)
    requires AnswersAsMaps(v, c) && added.DistinctKeys() && SameRecords(added, c)
    ensures AnswersAsMaps(v, added)
  {
    hide ByKey, Listing, LookupScan, ReaddirScan, NestedScan, LookupAnswer, SortKeys.DistinctKeys, InlineAnswer,
         ReaddirPlusScan, StatScan, ChunksScan, InlineScan, SymlinkScan, XattrsScan, ChunksAnswer, AnyBlob;
    MapsPermuted(added, c);
    BlobsPermuted(added, c);
    BlobsPermuted(c, added);
    forall inode: i64
      ensures AnswersAt(v, added, inode)
    {
      assert AnswersAt(v, c, inode);
    }
  }
}
