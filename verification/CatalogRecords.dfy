/** What a catalog holds, as the records callers add. */
module CatalogRecords {
  import opened Bytes
  import opened LittleEndian
  import opened SortKeys

  datatype Node = Node(inode: i64, typ: u8, mode: u32, uid: u32, gid: u32, mtimeNS: i64, ctimeNS: i64,
                       nlink: u32, length: i64, rdev: u32, keyID: i64, flags: u32)

  datatype Edge = Edge(parent: i64, inode: i64, name: Bytes, typ: u8)

  datatype Chunk = Chunk(inode: i64, idx: u32, identity: Bytes, llen: u32, clen: u32, alg: u8, keyID: u32)

  datatype BlobRec = BlobRec(inode: i64, data: Bytes)

  datatype Xattr = Xattr(inode: i64, name: Bytes, value: Bytes)

  datatype Nested = Nested(parent: i64, name: Bytes, identity: Bytes)

  /** Catalog metadata; the strings are kept as their bytes. */
  datatype Meta = Meta(volumeUUID: Bytes, coveredPath: Bytes, identityAlgo: Bytes)

  /** One extent as a caller hands it over; every number may be out of range. */
  datatype ChunkRef = ChunkRef(identity: Bytes, llen: i64, clen: i64, alg: i64, keyID: i64)

  function NodeKey(n: Node): SortKey { SortKey(n.inode, 0, []) }

  function EdgeKey(e: Edge): SortKey { SortKey(e.parent, 0, e.name) }

  function ChunkKey(c: Chunk): SortKey { SortKey(c.inode, c.idx, []) }

  function BlobKey(b: BlobRec): SortKey { SortKey(b.inode, 0, []) }

  function XattrKey(x: Xattr): SortKey { SortKey(x.inode, 0, x.name) }

  function NestedKey(n: Nested): SortKey { SortKey(n.parent, 0, n.name) }

  /** Everything a catalog is made of. */
  datatype Catalog = Catalog(meta: Meta, rootInode: i64, inlineMax: u32,
                             nodes: seq<Node>, edges: seq<Edge>, chunks: seq<Chunk>,
                             inline: seq<BlobRec>, symlinks: seq<BlobRec>, xattrs: seq<Xattr>,
                             nested: seq<Nested>)
  {
    ghost predicate DistinctKeys() {
      && SortKeys.DistinctKeys(nodes, NodeKey) && SortKeys.DistinctKeys(edges, EdgeKey)
      && SortKeys.DistinctKeys(chunks, ChunkKey) && SortKeys.DistinctKeys(inline, BlobKey)
      && SortKeys.DistinctKeys(symlinks, BlobKey) && SortKeys.DistinctKeys(xattrs, XattrKey)
      && SortKeys.DistinctKeys(nested, NestedKey)
    }

    /** Records that share a key are one record added more than once. */
    ghost predicate EqualTies() {
      && SortKeys.EqualTies(nodes, NodeKey) && SortKeys.EqualTies(edges, EdgeKey)
      && SortKeys.EqualTies(chunks, ChunkKey) && SortKeys.EqualTies(inline, BlobKey)
      && SortKeys.EqualTies(symlinks, BlobKey) && SortKeys.EqualTies(xattrs, XattrKey)
      && SortKeys.EqualTies(nested, NestedKey)
    }

    ghost predicate Ascending() {
      && SortKeys.Ascending(nodes, NodeKey) && SortKeys.Ascending(edges, EdgeKey)
      && SortKeys.Ascending(chunks, ChunkKey) && SortKeys.Ascending(inline, BlobKey)
      && SortKeys.Ascending(symlinks, BlobKey) && SortKeys.Ascending(xattrs, XattrKey)
      && SortKeys.Ascending(nested, NestedKey)
    }

    ghost predicate Sorted() {
      && SortKeys.Sorted(nodes, NodeKey) && SortKeys.Sorted(edges, EdgeKey)
      && SortKeys.Sorted(chunks, ChunkKey) && SortKeys.Sorted(inline, BlobKey)
      && SortKeys.Sorted(symlinks, BlobKey) && SortKeys.Sorted(xattrs, XattrKey)
      && SortKeys.Sorted(nested, NestedKey)
    }
  }

  /** The same records in whatever order, with the same header values. */
  ghost predicate SameRecords(a: Catalog, b: Catalog) {
    && a.meta == b.meta && a.rootInode == b.rootInode && a.inlineMax == b.inlineMax
    && multiset(a.nodes) == multiset(b.nodes) && multiset(a.edges) == multiset(b.edges)
    && multiset(a.chunks) == multiset(b.chunks) && multiset(a.inline) == multiset(b.inline)
    && multiset(a.symlinks) == multiset(b.symlinks) && multiset(a.xattrs) == multiset(b.xattrs)
    && multiset(a.nested) == multiset(b.nested)
  }

  lemma EqualTiesPermuted(a: Catalog, b: Catalog)
    requires SameRecords(a, b) && a.EqualTies()
    ensures b.EqualTies()
  {
    TiesPermuted(a.nodes, b.nodes, NodeKey);
    TiesPermuted(a.edges, b.edges, EdgeKey);
    TiesPermuted(a.chunks, b.chunks, ChunkKey);
    TiesPermuted(a.inline, b.inline, BlobKey);
    TiesPermuted(a.symlinks, b.symlinks, BlobKey);
    TiesPermuted(a.xattrs, b.xattrs, XattrKey);
    TiesPermuted(a.nested, b.nested, NestedKey);
  }

  /** Any two sorts of one set of records give one catalog when records that share a key are equal. */
  lemma TiedCatalogsAgree(a: Catalog, b: Catalog)
    requires SameRecords(a, b) && a.EqualTies() && a.Sorted() && b.Sorted()
    ensures a == b
  {
    hide SortKeys.EqualTies, SortKeys.Sorted;
    TiedSortIsUnique(a.nodes, b.nodes, NodeKey);
    TiedSortIsUnique(a.edges, b.edges, EdgeKey);
    TiedSortIsUnique(a.chunks, b.chunks, ChunkKey);
    TiedSortIsUnique(a.inline, b.inline, BlobKey);
    TiedSortIsUnique(a.symlinks, b.symlinks, BlobKey);
    TiedSortIsUnique(a.xattrs, b.xattrs, XattrKey);
    TiedSortIsUnique(a.nested, b.nested, NestedKey);
  }

  /** Sorting two orders of the same distinctly keyed records gives one catalog. */
  lemma SortedCatalogsAgree(added: Catalog, a: Catalog, added': Catalog, b: Catalog)
    requires SameRecords(added, added') && SameRecords(a, added) && SameRecords(b, added')
    requires added.DistinctKeys() && a.Sorted() && b.Sorted()
    ensures a == b && a.Ascending()
  {
    SortsAgree(added.nodes, a.nodes, added'.nodes, b.nodes, NodeKey);
    SortsAgree(added.edges, a.edges, added'.edges, b.edges, EdgeKey);
    SortsAgree(added.chunks, a.chunks, added'.chunks, b.chunks, ChunkKey);
    SortsAgree(added.inline, a.inline, added'.inline, b.inline, BlobKey);
    SortsAgree(added.symlinks, a.symlinks, added'.symlinks, b.symlinks, BlobKey);
    SortsAgree(added.xattrs, a.xattrs, added'.xattrs, b.xattrs, XattrKey);
    SortsAgree(added.nested, a.nested, added'.nested, b.nested, NestedKey);
  }
}
