/** A file's extents from the writer to the reader: what was added for it is what it is made of. */
module StaticFiles {
  import opened Bytes
  import opened LittleEndian
  import opened SortKeys
  import opened CatalogRecords
  import opened StaticWriter
  import opened KeyedRecords
  import opened StaticView
  import opened StaticQueries
  import opened StaticMaps

  /** Of inode the catalog has the rows of these refs, and no others. */
  ghost predicate HoldsFile(c: Catalog, inode: i64, refs: seq<ChunkRef>) {
    && |refs| <= 0x1_0000_0000 && (forall i: nat :: i < |refs| ==> |refs[i].identity| == 32)
    && (forall i: nat :: i < |refs| ==> HasRow(c, inode, i, refs[i]))
    && forall x :: x in c.chunks && x.inode == inode ==> IsSomeRow(x, inode, refs)
  }

  ghost predicate HasRow(c: Catalog, inode: i64, i: nat, r: ChunkRef) {
    exists x :: x in c.chunks && IsRow(x, inode, i, r)
  }

  ghost predicate IsSomeRow(x: Chunk, inode: i64, refs: seq<ChunkRef>) {
    exists i: nat :: i < |refs| && IsRow(x, inode, i, refs[i])
  }

  /** The lengths of the first n refs. */
  ghost function Lengths(refs: seq<ChunkRef>, n: nat): int
    requires n <= |refs|
  {
    if n == 0 then 0 else Lengths(refs, n - 1) + refs[n - 1].llen
  }

  ghost predicate IsExtent(e: Extent, r: ChunkRef, offset: int) {
    && e.identity == r.identity && e.llen == r.llen && e.clen == r.clen && e.alg == r.alg && e.keyID == r.keyID
    && e.offset == offset
  }

  lemma {:induction false} RowsTotal(cs: seq<Chunk>, inode: i64, refs: seq<ChunkRef>, n: nat)
    requires n <= |cs| == |refs| && forall i: nat :: i < |refs| ==> IsRow(cs[i], inode, i, refs[i])
    ensures Total(cs[..n]) == Lengths(refs, n)
  {
    if n > 0 {
      RowsTotal(cs, inode, refs, n - 1);
      assert cs[..n][..n - 1] == cs[..n - 1];
    }
  }

  /** The rows in index order, and their keys. */
  lemma RowsListed(c: Catalog, inode: i64, refs: seq<ChunkRef>) returns (cs: seq<Chunk>)
    requires c.DistinctKeys() && HoldsFile(c, inode, refs)
    ensures |cs| == |refs| && forall i: nat :: i < |refs| ==> IsRow(cs[i], inode, i, refs[i])
    ensures Listing(cs, ByKey(c.chunks, ChunkKey), inode, Itself)
  {
    hide ByKey, KeysUnder, HoldsFile, IsRow;
    cs := RowsOf(c, inode, refs, |refs|);
    KeysListed(c, inode, refs, cs);
    KeysShown(c, inode, cs);
  }

  ghost function KeysOf(cs: seq<Chunk>): (ks: seq<SortKey>)
    ensures |ks| == |cs| && forall i :: 0 <= i < |cs| ==> ks[i] == SortKey(cs[i].inode, cs[i].idx, [])
  {
    seq(|cs|, i requires 0 <= i < |cs| => ChunkKey(cs[i]))
  }

  lemma KeysShown(c: Catalog, inode: i64, cs: seq<Chunk>)
    requires c.DistinctKeys() && forall i :: 0 <= i < |cs| ==> cs[i] in c.chunks
    ensures ShownFor(cs, KeysOf(cs), ByKey(c.chunks, ChunkKey), Itself)
  {
    hide ByKey;
    ByKeyHolds(c.chunks, ChunkKey);
    forall i | 0 <= i < |cs|
      ensures KeysOf(cs)[i] in ByKey(c.chunks, ChunkKey) && ByKey(c.chunks, ChunkKey)[KeysOf(cs)[i]] == cs[i]
    {
      var j :| 0 <= j < |c.chunks| && c.chunks[j] == cs[i];
    }
  }

  lemma KeysListed(c: Catalog, inode: i64, refs: seq<ChunkRef>, cs: seq<Chunk>)
    requires c.DistinctKeys() && HoldsFile(c, inode, refs) && |cs| == |refs|
    requires forall i: nat :: i < |refs| ==> IsRow(cs[i], inode, i, refs[i]) && cs[i] in c.chunks
    ensures KeysUnder(KeysOf(cs), ByKey(c.chunks, ChunkKey), inode)
  {
    hide ByKey, Precedes, HasRow, Ascends, IsRow;
    var m, ks := ByKey(c.chunks, ChunkKey), KeysOf(cs);
    KeysAscend(inode, refs, cs);
    KeysShown(c, inode, cs);
    forall k | k in m && k.inode == inode
      ensures k in ks
    {
      KeyIsRow(c, inode, refs, cs, k);
    }
    forall i | 0 <= i < |cs|
      ensures ks[i].inode == inode
    {
      RowInode(cs[i], inode, i, refs[i]);
    }
  }

  lemma RowInode(x: Chunk, inode: i64, i: nat, r: ChunkRef)
    requires IsRow(x, inode, i, r)
    ensures x.inode == inode
  {
  }

  lemma KeyIsRow(c: Catalog, inode: i64, refs: seq<ChunkRef>, cs: seq<Chunk>, k: SortKey)
    requires c.DistinctKeys() && HoldsFile(c, inode, refs) && |cs| == |refs|
    requires forall i: nat :: i < |refs| ==> IsRow(cs[i], inode, i, refs[i])
    requires k in ByKey(c.chunks, ChunkKey) && k.inode == inode
    ensures k in KeysOf(cs)
  {
    hide ByKey, HasRow;
    ByKeyHolds(c.chunks, ChunkKey);
    var x := ByKey(c.chunks, ChunkKey)[k];
    assert IsSomeRow(x, inode, refs);
    var i: nat :| i < |refs| && IsRow(x, inode, i, refs[i]);
    assert KeysOf(cs)[i] == k;
  }

  lemma KeysAscend(inode: i64, refs: seq<ChunkRef>, cs: seq<Chunk>)
    requires |cs| == |refs| <= 0x1_0000_0000 && forall i: nat :: i < |refs| ==> IsRow(cs[i], inode, i, refs[i])
    ensures Ascends(KeysOf(cs))
  {
    hide Precedes;
  }

  lemma {:induction false} RowsOf(c: Catalog, inode: i64, refs: seq<ChunkRef>, n: nat) returns (cs: seq<Chunk>)
    requires HoldsFile(c, inode, refs) && n <= |refs|
    ensures |cs| == n && forall i: nat :: i < n ==> IsRow(cs[i], inode, i, refs[i]) && cs[i] in c.chunks
  {
    if n == 0 {
      cs := [];
    } else {
      var front := RowsOf(c, inode, refs, n - 1);
      assert HasRow(c, inode, n - 1, refs[n - 1]);
      var x :| x in c.chunks && IsRow(x, inode, n - 1, refs[n - 1]);
      cs := front + [x];
    }
  }

  /**
    The extents that were added for a file come back in order, each with its identity, lengths,
    algorithm and key, at the offset the lengths before it add up to, if they fill the file's node.
   */
  lemma RefsComeBack(v: View, added: Catalog, inode: i64, refs: seq<ChunkRef>)
    requires AnswersAsMaps(v, added) && added.DistinctKeys() && HoldsFile(added, inode, refs)
    requires At(inode) in ByKey(added.nodes, NodeKey)
    requires ByKey(added.nodes, NodeKey)[At(inode)].length == Lengths(refs, |refs|)
    ensures refs == [] ==> ChunksScan(v, inode) == Ok(None)
    ensures refs != [] ==> ChunksScan(v, inode).Ok? && ChunksScan(v, inode).value.Some?
                           && var es := ChunksScan(v, inode).value.value;
                              |es| == |refs| && forall i: nat :: i < |refs| ==> IsExtent(es[i], refs[i], Lengths(refs, i))
  {
    hide ByKey, Listing, ChunksScan, HoldsFile, Total, Extents, AnswersAsMaps;
    ChunksAnswered(v, added, inode);
    var cs :| Listing(cs, ByKey(added.chunks, ChunkKey), inode, Itself) && AnsweredBy(v, added, inode, cs);
    var rows := RowsListed(added, inode, refs);
    ListingUnique(cs, rows, ByKey(added.chunks, ChunkKey), inode, Itself);
    RowsTotal(cs, inode, refs, |refs|);
    assert cs[..|refs|] == cs;
    forall i: nat | i < |refs|
      ensures IsExtent(Extents(cs)[i], refs[i], Lengths(refs, i))
    {
      ExtentsAre(cs, i);
      RowsTotal(cs, inode, refs, i);
    }
  }

  ghost predicate AnsweredBy(v: View, added: Catalog, inode: i64, cs: seq<Chunk>) {
    var nodes := ByKey(added.nodes, NodeKey);
    ChunksScan(v, inode) ==
      if cs == [] then Ok(None)
      else if At(inode) !in nodes then Err(NoNodeForChunks)
      else if Total(cs) != nodes[At(inode)].length then Err(LengthMismatch)
      else Ok(Some(Extents(cs)))
  }

  lemma ChunksAnswered(v: View, added: Catalog, inode: i64)
    requires AnswersAsMaps(v, added)
    ensures exists cs: seq<Chunk> :: Listing(cs, ByKey(added.chunks, ChunkKey), inode, Itself) && AnsweredBy(v, added, inode, cs)
  {
    hide ByKey, Listing, ChunksScan, LookupScan, LookupAnswer, ReaddirScan, NestedScan, ReaddirPlusScan, StatScan, InlineScan,
         InlineAnswer, SymlinkScan, XattrsScan, Total, Extents;
    assert AnswersAt(v, added, inode);
    var cs: seq<Chunk> :| Listing(cs, ByKey(added.chunks, ChunkKey), inode, Itself) && AnsweredBy(v, added, inode, cs);
  }
}
