/**
  The catalog reader: structural validation once, then binary searches and range scans over the
  raw sections.  On an ordered catalog each query answers what a linear scan would; on any other
  it still terminates and stays inside the sections.
 */
module StaticReader {
  import opened Bytes
  import opened BinarySearch
  import opened LittleEndian
  import opened Arena
  import opened CatalogRecords
  import opened StaticFormat
  import opened StaticEncoding
  import opened Scanning
  import opened StaticView
  import opened StaticQueries

  class Static {
    var header: Header
    var sec: Sections
    var meta: Meta

    constructor (header: Header)
      ensures this.header == header && sec == NO_SECTIONS
    {
      this.header := header;
      this.sec := NO_SECTIONS;
      this.meta := Meta([], [], []);
    }

    ghost predicate Valid()
      reads this
    {
      sec.Usable()
    }

    ghost function Seen(): View
      requires Valid()
      reads this
    {
      ViewOf(sec)
    }

    /** Keeps one section's bytes under its id; fails exactly when its records do not come out even. */
    method Attach(id: u32, data: Bytes) returns (ok: bool)
      modifies this`sec
      ensures ok <==> Attached(old(sec), id, data).Some?
      ensures ok ==> Some(sec) == Attached(old(sec), id, data)
    {
      if id == SEC_NAMES {
        sec := sec.(names := data);
      } else if id == SEC_BLOBS {
        sec := sec.(blobs := Some(data));
      } else if id == SEC_EDGES {
        if |data| % EDGE_LEN != 0 { return false; }
        sec := sec.(edges := data);
      } else if id == SEC_NODES {
        if |data| % NODE_LEN != 0 { return false; }
        sec := sec.(nodes := data);
      } else if id == SEC_CHUNKS {
        if |data| % CHUNK_LEN != 0 { return false; }
        sec := sec.(chunks := data);
      } else if id == SEC_INLINE {
        if |data| % INLINE_LEN != 0 { return false; }
        sec := sec.(inline := data);
      } else if id == SEC_XATTRS {
        if |data| % XATTR_LEN != 0 { return false; }
        sec := sec.(xattrs := data);
      } else if id == SEC_SYMLINKS {
        if |data| % SYMLINK_LEN != 0 { return false; }
        sec := sec.(symlinks := data);
      } else if id == SEC_NESTED {
        if |data| % NESTED_LEN != 0 { return false; }
        sec := sec.(nested := data);
      } else if id == SEC_IDENTITIES {
        if |data| % IDENTITY_LEN != 0 { return false; }
        sec := sec.(identities := data);
      } else if id == SEC_META {
        if |data| < META_LEN { return false; }
        sec := sec.(metaRaw := Some(data));
      }
      return true;
    }

    function EdgeCount(): (n: nat)
      requires Valid()
      reads this
      ensures n == |Seen().edges|
    {
      Count(sec.edges, EDGE_LEN)
    }

    function EdgeAt(i: nat): (e: RawEdge)
      requires Valid() && i < EdgeCount()
      reads this
      ensures e == Seen().edges[i]
    {
      DecodeEdge(RecAt(sec.edges, EDGE_LEN, i), sec.names)
    }

    function NestedCount(): (n: nat)
      requires Valid()
      reads this
      ensures n == |Seen().nested|
    {
      Count(sec.nested, NESTED_LEN)
    }

    function NestedAt(i: nat): (e: RawNested)
      requires Valid() && i < NestedCount()
      reads this
      ensures e == Seen().nested[i]
    {
      DecodeNested(RecAt(sec.nested, NESTED_LEN, i), sec.names, sec.identities)
    }

    function NodeCount(): (n: nat)
      requires Valid()
      reads this
      ensures n == |Seen().nodes|
    {
      Count(sec.nodes, NODE_LEN)
    }

    function NodeAt(i: nat): (n: Node)
      requires Valid() && i < NodeCount()
      reads this
      ensures n == Seen().nodes[i]
    {
      DecodeNode(RecAt(sec.nodes, NODE_LEN, i))
    }

    function ChunkCount(): (n: nat)
      requires Valid()
      reads this
      ensures n == |Seen().chunks|
    {
      Count(sec.chunks, CHUNK_LEN)
    }

    function ChunkAt(i: nat): (c: Chunk)
      requires Valid() && i < ChunkCount()
      reads this
      ensures c == Seen().chunks[i]
    {
      DecodeChunk(RecAt(sec.chunks, CHUNK_LEN, i))
    }

    function XattrCount(): (n: nat)
      requires Valid()
      reads this
      ensures n == |Seen().xattrs|
    {
      Count(sec.xattrs, XATTR_LEN)
    }

    function XattrAt(i: nat): (x: RawXattr)
      requires Valid() && i < XattrCount()
      reads this
      ensures x == Seen().xattrs[i]
    {
      DecodeXattr(RecAt(sec.xattrs, XATTR_LEN, i), sec.names, sec.BlobArena())
    }

    /** The first edge at or after (parent, name); without a name, the first of the directory. */
    method LowerBoundEdge(parent: i64, name: Option<Bytes>) returns (i: nat)
      requires Valid()
      ensures i <= EdgeCount()
      ensures InPlace(Seen().edges, EdgeSite) ==> LowerBound(Seen().edges, EdgeSite, parent, name, i)
    {
      hide DecodeEdge, AtOrAfter, InPlace, Landing;
      var s := sec;
      var n := EdgeCount();
      var f := (k: nat) =>
        k < n && AtOrAfter(EdgeSite(DecodeEdge(RecAt(s.edges, EDGE_LEN, k), s.names)), parent, name);
      i := Search(n, f);
      ghost var es := Seen().edges;
      assert forall k: nat :: k < n ==> (f(k) <==> AtOrAfter(EdgeSite(es[k]), parent, name));
      if InPlace(es, EdgeSite) {
        forall j: nat, k: nat | j <= k < n && f(j)
          ensures f(k)
        {
          SearchMonotone(es, EdgeSite, parent, name, j, k);
        }
        assert Monotone(n, f);
      }
    }

    /** The first nested locator at or after (parent, name). */
    method LowerBoundNested(parent: i64, name: Option<Bytes>) returns (i: nat)
      requires Valid()
      ensures i <= NestedCount()
      ensures InPlace(Seen().nested, NestedSite) ==> LowerBound(Seen().nested, NestedSite, parent, name, i)
    {
      hide DecodeNested, AtOrAfter, InPlace, Landing;
      var s := sec;
      var n := NestedCount();
      var f := (k: nat) =>
        k < n
        && AtOrAfter(NestedSite(DecodeNested(RecAt(s.nested, NESTED_LEN, k), s.names, s.identities)), parent, name);
      i := Search(n, f);
      ghost var ns := Seen().nested;
      assert forall k: nat :: k < n ==> (f(k) <==> AtOrAfter(NestedSite(ns[k]), parent, name));
      if InPlace(ns, NestedSite) {
        forall j: nat, k: nat | j <= k < n && f(j)
          ensures f(k)
        {
          SearchMonotone(ns, NestedSite, parent, name, j, k);
        }
        assert Monotone(n, f);
      }
    }

    /** Both halves of a transition point, whichever are there. */
    method Lookup(parent: i64, name: Bytes) returns (r: Result<LookupResult, ReadError>)
      requires Valid()
      ensures Ordered(Seen()) ==> r == LookupScan(Seen(), parent, name)
    {
      hide Ordered, First, LowerBound, InPlace;
      OrderedParts(Seen());
      var dirent: Option<Dirent> := None;
      var i := LowerBoundEdge(parent, Some(name));
      if Ordered(Seen()) {
        MatchAtLowerBound(Seen().edges, EdgeSite, parent, name, i);
      }
      if i < EdgeCount() {
        IsAtMeans(EdgeSite, parent, name, EdgeAt(i));
      }
      if i < EdgeCount() && EdgeAt(i).parent == parent && EdgeAt(i).name == Some(name) {
        dirent := Some(Dirent(name, EdgeAt(i).inode, EdgeAt(i).typ));
      }
      var j := LowerBoundNested(parent, Some(name));
      if Ordered(Seen()) {
        MatchAtLowerBound(Seen().nested, NestedSite, parent, name, j);
      }
      if j < NestedCount() {
        IsAtMeans(NestedSite, parent, name, NestedAt(j));
      }
      if j < NestedCount() && NestedAt(j).parent == parent && NestedAt(j).name == Some(name) {
        if NestedAt(j).identity.None? {
          return Err(CorruptCatalog);
        }
        return Ok(LookupResult(dirent, NestedAt(j).identity));
      }
      if dirent.None? {
        return Err(NotExist);
      }
      return Ok(LookupResult(dirent, None));
    }

    /** Where the records of one inode start in an array kept by inode. */
    method LowerBoundInode<T>(n: nat, keyAt: nat -> i64, ghost xs: seq<T>, ghost key: T -> i64, inode: i64)
      returns (i: nat)
      requires n == |xs| && forall k: nat :: k < n ==> keyAt(k) == key(xs[k])
      ensures i <= n && i == InodeLanding(xs, key, inode) && (Climbs(xs, key) ==> InodeBound(xs, key, inode, i))
    {
      var f := (k: nat) => k < n && keyAt(k) >= inode;
      i := Search(n, f);
      assert forall k: nat :: k < n ==> (f(k) <==> key(xs[k]) >= inode);
      SameLanding(0, n, f, (k: nat) => k < |xs| && key(xs[k]) >= inode);
      if Climbs(xs, key) {
        forall j: nat, k: nat | j <= k < n && f(j)
          ensures f(k)
        {
          ClimbsFar(xs, key, j, k);
        }
        assert Monotone(n, f);
      }
    }

    /** The directory's entries and nested locators, by name. */
    method Readdir(parent: i64) returns (r: Result<(seq<Dirent>, seq<NestedEntry>), ReadError>)
      requires Valid()
      ensures Ordered(Seen()) ==> r == ReaddirScan(Seen(), parent)
    {
      hide Ordered, Scan, LowerBound, InPlace, ViewOf, DecodeEdge, DecodeNested, DecodeNode, RecAt;
      OrderedParts(Seen());
      ghost var es, want := Seen().edges, IsUnder(EdgeSite, parent);
      var ents: seq<Dirent> := [];
      var i := LowerBoundEdge(parent, None);
      ghost var lo := i;
      StartRun(es, EdgeSite, parent, lo, DirentOf);
      while i < EdgeCount() && EdgeAt(i).parent == parent
        invariant lo <= i <= EdgeCount() && forall k :: lo <= k < i ==> EdgeSite(es[k]).parent == parent
        invariant Ordered(Seen()) ==> Scan(es[..i], want, DirentOf) == Some(ents)
      {
        IsUnderMeans(EdgeSite, parent, EdgeAt(i));
        ScanTurn(es, i, want, DirentOf, ents);
        if EdgeAt(i).name.None? {
          return Err(CorruptCatalog);
        }
        ents := ents + [Dirent(EdgeAt(i).name.value, EdgeAt(i).inode, EdgeAt(i).typ)];
        i := i + 1;
      }
      EndRun(es, EdgeSite, parent, lo, i, DirentOf);
      var nested := NestedOf(parent);
      match nested {
        case Err(e) => return Err(e);
        case Ok(ns) => return Ok((ents, ns));
      }
    }

    /** The directory's nested locators, by name. */
    method NestedOf(parent: i64) returns (r: Result<seq<NestedEntry>, ReadError>)
      requires Valid()
      ensures Ordered(Seen()) ==> r == NestedScan(Seen(), parent)
    {
      hide Ordered, Scan, LowerBound, InPlace, ViewOf, DecodeEdge, DecodeNested, DecodeNode, RecAt;
      OrderedParts(Seen());
      ghost var ns, want := Seen().nested, IsUnder(NestedSite, parent);
      var out: seq<NestedEntry> := [];
      var i := LowerBoundNested(parent, None);
      ghost var lo := i;
      StartRun(ns, NestedSite, parent, lo, NestedEntryOf);
      while i < NestedCount() && NestedAt(i).parent == parent
        invariant lo <= i <= NestedCount() && forall k :: lo <= k < i ==> NestedSite(ns[k]).parent == parent
        invariant Ordered(Seen()) ==> Scan(ns[..i], want, NestedEntryOf) == Some(out)
      {
        IsUnderMeans(NestedSite, parent, NestedAt(i));
        ScanTurn(ns, i, want, NestedEntryOf, out);
        if NestedAt(i).name.None? || NestedAt(i).identity.None? {
          return Err(CorruptCatalog);
        }
        out := out + [NestedEntry(NestedAt(i).name.value, NestedAt(i).identity.value)];
        i := i + 1;
      }
      EndRun(ns, NestedSite, parent, lo, i, NestedEntryOf);
      return Ok(out);
    }

    /** Entries with their nodes, by the node index each edge carries. */
    method ReaddirPlus(parent: i64) returns (r: Result<seq<DirentNode>, ReadError>)
      requires Valid()
      ensures Ordered(Seen()) ==> r == ReaddirPlusScan(Seen(), parent)
    {
      hide Ordered, Scan, LowerBound, InPlace, ViewOf, DecodeEdge, DecodeNested, DecodeNode, RecAt;
      OrderedParts(Seen());
      ghost var es, want, read := Seen().edges, IsUnder(EdgeSite, parent), JoinedBy(Seen().nodes);
      var out: seq<DirentNode> := [];
      var i := LowerBoundEdge(parent, None);
      ghost var lo := i;
      StartRun(es, EdgeSite, parent, lo, read);
      while i < EdgeCount() && EdgeAt(i).parent == parent
        invariant lo <= i <= EdgeCount() && forall k :: lo <= k < i ==> EdgeSite(es[k]).parent == parent
        invariant Ordered(Seen()) ==> Scan(es[..i], want, read) == Some(out)
      {
        IsUnderMeans(EdgeSite, parent, EdgeAt(i));
        ScanTurn(es, i, want, read, out);
        var e := EdgeAt(i);
        if e.name.None? || e.node >= NodeCount() || NodeAt(e.node).inode != e.inode {
          return Err(CorruptCatalog);
        }
        out := out + [DirentNode(e.name.value, NodeAt(e.node))];
        i := i + 1;
      }
      EndRun(es, EdgeSite, parent, lo, i, read);
      return Ok(out);
    }

    method FindNode(inode: i64) returns (r: Option<nat>)
      requires Valid()
      ensures r.Some? ==> r.value < NodeCount() && NodeAt(r.value).inode == inode
      ensures StatSearch(Seen(), inode) == if r.None? then Err(NotExist) else Ok(NodeAt(r.value))
      ensures Climbs(Seen().nodes, NodeInode) ==>
        First(Seen().nodes, IsOf(NodeInode, inode)) == if r.None? then None else Some(NodeAt(r.value))
    {
      hide First, InodeBound, Climbs;
      var s := sec;
      var n := NodeCount();
      ghost var ns := Seen().nodes;
      var keyAt := (k: nat) => if k < n then DecodeNode(RecAt(s.nodes, NODE_LEN, k)).inode else 0;
      forall k: nat | k < n
        ensures keyAt(k) == NodeInode(ns[k])
      {
        assert NodeAt(k) == ns[k];
      }
      var i := LowerBoundInode(n, keyAt, ns, NodeInode, inode);
      if Climbs(ns, NodeInode) {
        FirstAtInode(ns, NodeInode, inode, i);
      }
      if i < n && NodeAt(i).inode == inode {
        return Some(i);
      }
      return None;
    }

    method Stat(inode: i64) returns (r: Result<Node, ReadError>)
      requires Valid()
      ensures r == StatSearch(Seen(), inode) && (r.Ok? ==> r.value.inode == inode)
      ensures Ordered(Seen()) ==> r == StatScan(Seen(), inode)
    {
      hide Ordered, First, StatSearch;
      OrderedParts(Seen());
      var i := FindNode(inode);
      return if i.None? then Err(NotExist) else Ok(NodeAt(i.value));
    }

    /**
      A file's extents, refused unless they account for exactly its length.  That much holds of any
      catalog; which extents they are is sure only of one in order.
     */
    method Chunks(inode: i64) returns (r: Result<Option<seq<Extent>>, ReadError>)
      requires Valid()
      ensures r == ChunksSearch(Seen(), inode)
      ensures r.Ok? && r.value.Some? ==>
        StatSearch(Seen(), inode).Ok? && ExtentTotal(r.value.value) == StatSearch(Seen(), inode).value.length
        && forall k :: 0 <= k < |r.value.value| ==> r.value.value[k].offset == ExtentTotal(r.value.value[..k])
      ensures Ordered(Seen()) ==> r == ChunksScan(Seen(), inode)
    {
      hide Ordered, Scan, ViewOf, Extents, Total, StatSearch, StatScan, ChunkList, RunFrom, InodeLanding, ExtentTotal;
      var out, logical := ChunkRun(inode);
      if out == [] {
        return Ok(None);
      }
      var node := Stat(inode);
      match node {
        case Err(_) => return Err(NoNodeForChunks);
        case Ok(nd) =>
          if logical != nd.length {
            return Err(LengthMismatch);
          }
          ExtentsTile(RunFrom(Seen().chunks, inode, InodeLanding(Seen().chunks, ChunkInode, inode)));
          return Ok(Some(out));
      }
    }

    /** The extents from an inode's lower bound on, each at the running sum of those before it. */
    method ChunkRun(inode: i64) returns (out: seq<Extent>, logical: nat)
      requires Valid()
      ensures var taken := RunFrom(Seen().chunks, inode, InodeLanding(Seen().chunks, ChunkInode, inode));
        && out == Extents(taken) && logical == Total(taken)
        && (Ordered(Seen()) ==> taken == ChunkList(Seen().chunks, inode))
    {
      hide Ordered, Scan, ViewOf, RecAt, Extents, Total, DecodeChunk, InodeLanding, RunFrom, RunSoFar, InodeBound, Climbs;
      OrderedParts(Seen());
      NoExtents();
      var s := sec;
      var n := ChunkCount();
      ghost var cs := Seen().chunks;
      var keyAt := (k: nat) => if k < n then DecodeChunk(RecAt(s.chunks, CHUNK_LEN, k)).inode else 0;
      forall k: nat | k < n
        ensures keyAt(k) == ChunkInode(cs[k])
      {
        assert ChunkAt(k) == cs[k];
      }
      var i := LowerBoundInode(n, keyAt, cs, ChunkInode, inode);
      ghost var lo := i;
      ghost var taken: seq<Chunk> := [];
      out, logical := [], 0;
      RunStarts(cs, inode, lo);
      while i < n && ChunkAt(i).inode == inode
        invariant i <= n && RunSoFar(cs, inode, lo, i, taken) && out == Extents(taken) && logical == Total(taken)
      {
        RunTurns(cs, inode, lo, i, taken);
        var c := ChunkAt(i);
        OneMoreExtent(taken, c);
        out := out + [Extent(c.identity, c.llen, c.clen, c.keyID, c.alg, logical)];
        logical := logical + c.llen;
        taken := taken + [c];
        i := i + 1;
      }
      RunEnds(cs, inode, lo, i, taken);
    }

    /** The answer for one inode out of either array of blob records. */
    method BlobFor(recs: Bytes, inode: i64) returns (r: Result<Option<Bytes>, ReadError>)
      requires Valid()
      ensures var bs := BlobRecs(recs, sec.BlobArena());
        Climbs(bs, BlobInode) ==> r == BlobScan(bs, inode)
    {
      hide First, InodeBound, Climbs;
      var arena := sec.BlobArena();
      var n := Count(recs, INLINE_LEN);
      ghost var bs := BlobRecs(recs, arena);
      var keyAt := (k: nat) => if k < n then DecodeBlob(RecAt(recs, INLINE_LEN, k), arena).inode else 0;
      var i := LowerBoundInode(n, keyAt, bs, BlobInode, inode);
      if Climbs(bs, BlobInode) {
        FirstAtInode(bs, BlobInode, inode, i);
      }
      if i >= n || keyAt(i) != inode {
        return Ok(None);
      }
      var data := DecodeBlob(RecAt(recs, INLINE_LEN, i), arena).data;
      if data.None? {
        return Err(CorruptCatalog);
      }
      return Ok(data);
    }

    /** None for an inode with no inline record, and for one whose record slices an absent arena. */
    method Inline(inode: i64) returns (r: Result<Option<Bytes>, ReadError>)
      requires Valid()
      ensures Ordered(Seen()) ==> r == InlineScan(Seen(), inode)
    {
      OrderedParts(Seen());
      var b := BlobFor(sec.inline, inode);
      match b {
        case Err(e) => return Err(e);
        case Ok(data) =>
          if data.Some? && sec.blobs.None? {
            return Ok(None);
          }
          return Ok(data);
      }
    }

    method Symlink(inode: i64) returns (r: Result<Bytes, ReadError>)
      requires Valid()
      ensures Ordered(Seen()) ==> r == SymlinkScan(Seen(), inode)
    {
      OrderedParts(Seen());
      var b := BlobFor(sec.symlinks, inode);
      match b {
        case Err(e) => return Err(e);
        case Ok(data) =>
          if data.None? {
            return Err(NotExist);
          }
          return Ok(data.value);
      }
    }

    method Xattrs(inode: i64) returns (r: Result<seq<XattrEntry>, ReadError>)
      requires Valid()
      ensures Ordered(Seen()) ==> r == XattrsScan(Seen(), inode)
    {
      hide Ordered, Scan, InodeBound, Climbs, ViewOf, RecAt, InodeLanding;
      OrderedParts(Seen());
      var s := sec;
      var n := XattrCount();
      ghost var xs, want := Seen().xattrs, IsOf(XattrInode, inode);
      var keyAt := (k: nat) =>
        if k < n then DecodeXattr(RecAt(s.xattrs, XATTR_LEN, k), s.names, s.BlobArena()).inode else 0;
      forall k: nat | k < n
        ensures keyAt(k) == XattrInode(xs[k])
      {
        assert XattrAt(k) == xs[k];
      }
      var i := LowerBoundInode(n, keyAt, xs, XattrInode, inode);
      ghost var lo := i;
      var out: seq<XattrEntry> := [];
      StartInode(xs, XattrInode, inode, lo, XattrEntryOf);
      while i < n && XattrAt(i).inode == inode
        invariant lo <= i <= n && forall k :: lo <= k < i ==> XattrInode(xs[k]) == inode
        invariant Ordered(Seen()) ==> Scan(xs[..i], want, XattrEntryOf) == Some(out)
      {
        ScanTurn(xs, i, want, XattrEntryOf, out);
        var x := XattrAt(i);
        if x.name.None? || x.value.None? {
          return Err(CorruptCatalog);
        }
        out := out + [XattrEntry(x.name.value, x.value.value)];
        i := i + 1;
      }
      EndInode(xs, XattrInode, inode, lo, i, XattrEntryOf);
      return Ok(out);
    }

    /**
      Whether every record array is sorted on its key and each edge indexes a node for its own
      inode.  While it is true every query is sure to answer what a scan would.
     */
    method CheckOrder() returns (ok: bool)
      requires Valid()
      ensures ok <==> Ordered(Seen())
    {
      hide ViewOf, DecodeEdge, DecodeNested, DecodeNode, DecodeChunk, DecodeXattr, DecodeBlob, RecAt, Less;
      var edges := CheckEdges();
      if !edges {
        return false;
      }
      var inodes := CheckInodes();
      if !inodes {
        return false;
      }
      var i := 1;
      while i < ChunkCount()
        invariant 0 < i
        invariant forall k :: 0 < k < i && k < ChunkCount() ==> ChunkPair(Seen().chunks[k - 1], Seen().chunks[k])
      {
        if ChunkAt(i - 1).inode == ChunkAt(i).inode && ChunkAt(i - 1).idx >= ChunkAt(i).idx {
          assert !ChunkPair(Seen().chunks[i - 1], Seen().chunks[i]);
          return false;
        }
        i := i + 1;
      }
      i := 1;
      while i < NestedCount()
        invariant 0 < i
        invariant forall k :: 0 < k < i && k < NestedCount() ==>
          Follows(NestedSite(Seen().nested[k - 1]), NestedSite(Seen().nested[k]))
      {
        var inOrder := FollowsNext(NestedSite(NestedAt(i - 1)), NestedSite(NestedAt(i)));
        if !inOrder {
          assert !Follows(NestedSite(Seen().nested[i - 1]), NestedSite(Seen().nested[i]));
          return false;
        }
        i := i + 1;
      }
      return true;
    }

    /** Edges by (parent, name), each with a node index for its own inode. */
    method CheckEdges() returns (ok: bool)
      requires Valid()
      ensures ok <==>
        InPlace(Seen().edges, EdgeSite) && forall i :: 0 <= i < |Seen().edges| ==> EdgePoints(Seen().edges[i], Seen().nodes)
    {
      hide ViewOf, DecodeEdge, DecodeNode, RecAt, Less;
      var i := 1;
      while i < EdgeCount()
        invariant 0 < i
        invariant forall k :: 0 < k < i && k < EdgeCount() ==>
          Follows(EdgeSite(Seen().edges[k - 1]), EdgeSite(Seen().edges[k]))
      {
        var inOrder := FollowsNext(EdgeSite(EdgeAt(i - 1)), EdgeSite(EdgeAt(i)));
        if !inOrder {
          assert !Follows(EdgeSite(Seen().edges[i - 1]), EdgeSite(Seen().edges[i]));
          return false;
        }
        i := i + 1;
      }
      for i := 0 to EdgeCount()
        invariant forall k :: 0 <= k < i ==> EdgePoints(Seen().edges[k], Seen().nodes)
      {
        if EdgeAt(i).node >= NodeCount() || NodeAt(EdgeAt(i).node).inode != EdgeAt(i).inode {
          assert !EdgePoints(Seen().edges[i], Seen().nodes);
          return false;
        }
      }
      return true;
    }

    /** The arrays kept by inode alone. */
    method CheckInodes() returns (ok: bool)
      requires Valid()
      ensures ok <==>
        && Climbs(Seen().nodes, NodeInode) && Climbs(Seen().inline, BlobInode) && Climbs(Seen().symlinks, BlobInode)
        && Climbs(Seen().chunks, ChunkInode) && Climbs(Seen().xattrs, XattrInode)
    {
      hide ViewOf;
      SeenBlobs();
      var nodes := CheckNodeInodes();
      if !nodes {
        return false;
      }
      var inline := CheckBlobs(sec.inline, sec.BlobArena());
      if !inline {
        return false;
      }
      var symlinks := CheckBlobs(sec.symlinks, sec.BlobArena());
      if !symlinks {
        return false;
      }
      var chunks := CheckChunkInodes();
      if !chunks {
        return false;
      }
      ok := CheckXattrInodes();
    }

    lemma SeenBlobs()
      requires Valid()
      ensures Seen().inline == BlobRecs(sec.inline, sec.BlobArena())
      ensures Seen().symlinks == BlobRecs(sec.symlinks, sec.BlobArena())
    {
    }

    method CheckNodeInodes() returns (ok: bool)
      requires Valid()
      ensures ok <==> Climbs(Seen().nodes, NodeInode)
    {
      var s, n := sec, NodeCount();
      var key := (k: nat) => if k < n then DecodeNode(RecAt(s.nodes, NODE_LEN, k)).inode else 0;
      ok := CheckAscending(n, key, Seen().nodes, NodeInode);
    }

    method CheckChunkInodes() returns (ok: bool)
      requires Valid()
      ensures ok <==> Climbs(Seen().chunks, ChunkInode)
    {
      var s, n := sec, ChunkCount();
      var key := (k: nat) => if k < n then DecodeChunk(RecAt(s.chunks, CHUNK_LEN, k)).inode else 0;
      ok := CheckAscending(n, key, Seen().chunks, ChunkInode);
    }

    method CheckXattrInodes() returns (ok: bool)
      requires Valid()
      ensures ok <==> Climbs(Seen().xattrs, XattrInode)
    {
      var s, arena, n := sec, sec.BlobArena(), XattrCount();
      var key := (k: nat) => if k < n then DecodeXattr(RecAt(s.xattrs, XATTR_LEN, k), s.names, arena).inode else 0;
      ok := CheckAscending(n, key, Seen().xattrs, XattrInode);
    }

    method CheckBlobs(recs: Bytes, arena: Bytes) returns (ok: bool)
      requires |arena| < U32_RANGE
      ensures ok <==> Climbs(BlobRecs(recs, arena), BlobInode)
    {
      var n := Count(recs, INLINE_LEN);
      var key := (k: nat) => if k < n then DecodeBlob(RecAt(recs, INLINE_LEN, k), arena).inode else 0;
      ok := CheckAscending(n, key, BlobRecs(recs, arena), BlobInode);
    }

    method CheckAscending<T>(n: nat, keyAt: nat -> i64, ghost xs: seq<T>, ghost key: T -> i64) returns (ok: bool)
      requires n == |xs| && forall k: nat :: k < n ==> keyAt(k) == key(xs[k])
      ensures ok <==> Climbs(xs, key)
    {
      var i := 1;
      while i < n
        invariant 0 < i
        invariant forall k :: 0 < k < i && k < n ==> key(xs[k - 1]) <= key(xs[k])
      {
        if keyAt(i - 1) > keyAt(i) {
          assert key(xs[i - 1]) > key(xs[i]);
          return false;
        }
        i := i + 1;
      }
      return true;
    }
  }

  /** Two neighbours by (parent, name): a name outside the arena is out of order where it matters. */
  method FollowsNext(a: Site, b: Site) returns (ok: bool)
    ensures ok <==> Follows(a, b)
  {
    if a.parent > b.parent {
      return false;
    }
    if a.parent < b.parent {
      return true;
    }
    if a.name.None? || b.name.None? {
      return false;
    }
    return Less(a.name.value, b.name.value);
  }

  /** Checks a blob's structure and returns a reader over it. */
  method OpenStatic(buf: Bytes) returns (r: Result<Static, OpenError>)
    requires ArenasFit(buf)
    ensures match Parse(buf)
      case Err(e) => r == Err(e)
      case Ok(p) =>
        && r.Ok? && fresh(r.value) && r.value.Valid()
        && r.value.header == p.header && r.value.sec == p.sec && r.value.meta == p.meta
  {
    hide ReadTable, AttachAll, DecodeHeader;
    var header := DecodeHeader(buf);
    if header.Err? {
      return Err(header.error);
    }
    var h := header.value;
    var base, n: nat := h.headerLen, h.sectionCount;
    if base + n * SECTION_ENTRY_LEN > |buf| {
      return Err(Corrupt);
    }
    var s := new Static(h);
    NoTable(buf, base);
    for i := 0 to n
      invariant fresh(s) && s.header == h
      invariant base + i * SECTION_ENTRY_LEN <= |buf|
      invariant ReadTable(buf, base, i).Some? && AttachAll(ReadTable(buf, base, i).value) == Some(s.sec)
    {
      var e := EntryAt(buf, base, i);
      TableStep(buf, base, i, n);
      if e.off % 8 != 0 {
        return Err(Corrupt);
      }
      if e.off > |buf| || e.len > |buf| - e.off {
        return Err(Corrupt);
      }
      var ok := s.Attach(e.id, DataOf(buf, e));
      if !ok {
        return Err(Corrupt);
      }
    }
    AttachAllShaped(ReadTable(buf, base, n).value);
    var m := LoadMeta(s.sec);
    if m.None? {
      return Err(Corrupt);
    }
    s.meta := m.value;
    return Ok(s);
  }

  lemma NoTable(buf: Bytes, base: nat)
    requires base <= |buf|
    ensures ReadTable(buf, base, 0) == Some([]) && AttachAll([]) == Some(NO_SECTIONS)
  {
  }

  /** One table entry further: the sections grow by it, or the blob is corrupt for good. */
  lemma TableStep(buf: Bytes, base: nat, i: nat, n: nat)
    requires i < n && base + n * SECTION_ENTRY_LEN <= |buf|
    requires ReadTable(buf, base, i).Some? && AttachAll(ReadTable(buf, base, i).value).Some?
    ensures var e, before := EntryAt(buf, base, i), AttachAll(ReadTable(buf, base, i).value).value;
      if !EntryOk(buf, e) then ReadTable(buf, base, n).None?
      else match Attached(before, e.id, DataOf(buf, e))
        case None => ReadTable(buf, base, n).None? || AttachAll(ReadTable(buf, base, n).value).None?
        case Some(s) => ReadTable(buf, base, i + 1).Some? && AttachAll(ReadTable(buf, base, i + 1).value) == Some(s)
  {
    var e := EntryAt(buf, base, i);
    TablePrefix(buf, base, i + 1, n);
    if EntryOk(buf, e) {
      var front := ReadTable(buf, base, i).value;
      var all := ReadTable(buf, base, i + 1).value;
      assert all == front + [Sec(e.id, DataOf(buf, e))];
      assert all[..|all| - 1] == front;
      if ReadTable(buf, base, n).Some? && AttachAll(all).None? {
        AttachFails(ReadTable(buf, base, n).value, i + 1);
      }
    }
  }

  lemma IsAtMeans<T>(at: T -> Site, parent: i64, name: Bytes, x: T)
    ensures IsAt(at, parent, name)(x) <==> at(x).parent == parent && at(x).name == Some(name)
  {
  }

  lemma IsUnderMeans<T>(at: T -> Site, parent: i64, x: T)
    ensures IsUnder(at, parent)(x) <==> at(x).parent == parent
  {
  }

  lemma OrderedParts(v: View)
    ensures Ordered(v) ==>
      && InPlace(v.edges, EdgeSite) && InPlace(v.nested, NestedSite)
      && Climbs(v.nodes, NodeInode) && Climbs(v.inline, BlobInode) && Climbs(v.symlinks, BlobInode)
      && Climbs(v.chunks, ChunkInode) && Climbs(v.xattrs, XattrInode)
  {
  }

  // ---------- Range scans ----------

  lemma StartRun<T, U>(xs: seq<T>, at: T -> Site, parent: i64, lo: nat, read: T -> Option<U>)
    requires lo <= |xs|
    ensures InPlace(xs, at) && LowerBound(xs, at, parent, None, lo) ==>
      Scan(xs[..lo], IsUnder(at, parent), read) == Some([])
  {
    if InPlace(xs, at) && LowerBound(xs, at, parent, None, lo) {
      forall k | 0 <= k < lo
        ensures !IsUnder(at, parent)(xs[k])
      {
        assert !AtOrAfter(at(xs[k]), parent, None);
      }
      ScanNone(xs, lo, IsUnder(at, parent), read);
    }
  }

  lemma EndRun<T, U>(xs: seq<T>, at: T -> Site, parent: i64, lo: nat, i: nat, read: T -> Option<U>)
    requires lo <= i <= |xs| && forall k :: lo <= k < i ==> at(xs[k]).parent == parent
    requires i < |xs| ==> at(xs[i]).parent != parent
    ensures InPlace(xs, at) && LowerBound(xs, at, parent, None, lo) ==>
      Scan(xs, IsUnder(at, parent), read) == Scan(xs[..i], IsUnder(at, parent), read)
  {
    if InPlace(xs, at) && LowerBound(xs, at, parent, None, lo) {
      RunAtLowerBound(xs, at, parent, lo, i);
      ScanAll(xs, i, IsUnder(at, parent), read);
    }
  }

  /** One wanted record further: the scan grows by it, or fails for good. */
  lemma ScanTurn<T, U>(xs: seq<T>, i: nat, want: T -> bool, read: T -> Option<U>, out: seq<U>)
    requires i < |xs| && want(xs[i])
    ensures Scan(xs[..i], want, read) == Some(out) ==>
            match read(xs[i])
            case Some(u) => Scan(xs[..i + 1], want, read) == Some(out + [u])
            case None => Scan(xs, want, read).None?
  {
    ScanStep(xs, i, want, read);
    if Scan(xs[..i + 1], want, read).None? {
      ScanFails(xs, i + 1, want, read);
    }
  }

  lemma NoExtents()
    ensures Extents([]) == [] && Total([]) == 0
  {
  }

  lemma OneMoreExtent(cs: seq<Chunk>, c: Chunk)
    ensures Extents(cs + [c]) == Extents(cs) + [Extent(c.identity, c.llen, c.clen, c.keyID, c.alg, Total(cs))]
    ensures Total(cs + [c]) == Total(cs) + c.llen
  {
    assert (cs + [c])[..|cs|] == cs;
  }

  /** The records from lo up to i are all of the inode; on ordered ones that is what a scan up to i takes. */
  ghost predicate RunSoFar(cs: seq<Chunk>, inode: i64, lo: nat, i: nat, taken: seq<Chunk>) {
    && lo <= i <= |cs| && (forall k :: lo <= k < i ==> cs[k].inode == inode)
    && taken + RunFrom(cs, inode, i) == RunFrom(cs, inode, lo)
    && (InodeBound(cs, ChunkInode, inode, lo) ==> Scan(cs[..i], IsOf(ChunkInode, inode), Itself) == Some(taken))
  }

  lemma RunStarts(cs: seq<Chunk>, inode: i64, lo: nat)
    requires lo <= |cs|
    ensures RunSoFar(cs, inode, lo, lo, [])
  {
    StartInode(cs, ChunkInode, inode, lo, Itself);
  }

  lemma RunTurns(cs: seq<Chunk>, inode: i64, lo: nat, i: nat, taken: seq<Chunk>)
    requires RunSoFar(cs, inode, lo, i, taken) && i < |cs| && cs[i].inode == inode
    ensures RunSoFar(cs, inode, lo, i + 1, taken + [cs[i]])
  {
    hide InodeBound, Scan;
    ScanTurn(cs, i, IsOf(ChunkInode, inode), Itself, taken);
    assert taken + ([cs[i]] + RunFrom(cs, inode, i + 1)) == taken + [cs[i]] + RunFrom(cs, inode, i + 1);
  }

  lemma RunEnds(cs: seq<Chunk>, inode: i64, lo: nat, i: nat, taken: seq<Chunk>)
    requires RunSoFar(cs, inode, lo, i, taken) && (i < |cs| ==> cs[i].inode != inode)
    ensures taken == RunFrom(cs, inode, lo)
    ensures Climbs(cs, ChunkInode) && InodeBound(cs, ChunkInode, inode, lo) ==> taken == ChunkList(cs, inode)
  {
    hide InodeBound, Scan, Climbs;
    EndInode(cs, ChunkInode, inode, lo, i, Itself);
    assert RunFrom(cs, inode, i) == [] && taken + [] == taken;
  }

  lemma {:induction false} ExtentsSum(cs: seq<Chunk>, i: nat)
    requires i <= |cs|
    ensures ExtentTotal(Extents(cs)[..i]) == Total(cs[..i])
    ensures i < |cs| ==> Extents(cs)[i].offset == Total(cs[..i])
  {
    if i < |cs| {
      ExtentsAre(cs, i);
    }
    if i > 0 {
      ExtentsSum(cs, i - 1);
      ExtentsAre(cs, i - 1);
      assert Extents(cs)[..i][..i - 1] == Extents(cs)[..i - 1] && cs[..i][..i - 1] == cs[..i - 1];
    }
  }

  /** Extents sum to their chunks' total, each at the sum of those before it. */
  lemma ExtentsTile(cs: seq<Chunk>)
    ensures ExtentTotal(Extents(cs)) == Total(cs)
    ensures forall k :: 0 <= k < |cs| ==> Extents(cs)[k].offset == ExtentTotal(Extents(cs)[..k])
  {
    ExtentsSum(cs, |cs|);
    assert Extents(cs)[..|cs|] == Extents(cs) && cs[..|cs|] == cs;
    forall k | 0 <= k < |cs|
      ensures Extents(cs)[k].offset == ExtentTotal(Extents(cs)[..k])
    {
      ExtentsSum(cs, k);
    }
  }

  lemma StartInode<T, U>(xs: seq<T>, key: T -> i64, inode: i64, lo: nat, read: T -> Option<U>)
    requires lo <= |xs|
    ensures InodeBound(xs, key, inode, lo) ==> Scan(xs[..lo], IsOf(key, inode), read) == Some([])
  {
    if InodeBound(xs, key, inode, lo) {
      ScanNone(xs, lo, IsOf(key, inode), read);
    }
  }

  lemma EndInode<T, U>(xs: seq<T>, key: T -> i64, inode: i64, lo: nat, i: nat, read: T -> Option<U>)
    requires lo <= i <= |xs| && forall k :: lo <= k < i ==> key(xs[k]) == inode
    requires i < |xs| ==> key(xs[i]) != inode
    ensures Climbs(xs, key) && InodeBound(xs, key, inode, lo) ==>
      Scan(xs, IsOf(key, inode), read) == Scan(xs[..i], IsOf(key, inode), read)
  {
    if Climbs(xs, key) && InodeBound(xs, key, inode, lo) {
      RunAtInode(xs, key, inode, lo, i);
      ScanAll(xs, i, IsOf(key, inode), read);
    }
  }

  lemma FirstAtInode<T>(xs: seq<T>, key: T -> i64, inode: i64, i: nat)
    requires Climbs(xs, key) && InodeBound(xs, key, inode, i)
    ensures First(xs, IsOf(key, inode)) ==
            if i < |xs| && key(xs[i]) == inode then Some(xs[i]) else None
  {
    FirstAt(xs, IsOf(key, inode), i);
    if i < |xs| && key(xs[i]) != inode {
      RunAtInode(xs, key, inode, i, i);
      FirstAt(xs, IsOf(key, inode), |xs|);
    }
  }
}
