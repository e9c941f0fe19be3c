/**
  The queries of a catalog as linear scans of its records, and the order that makes a binary
  search find what a scan would.
 */
module StaticQueries {
  import opened Bytes
  import opened LittleEndian
  import opened CatalogRecords
  import opened BinarySearch
  import opened Scanning
  import opened StaticView

  datatype ReadError = NotExist | CorruptCatalog | NoNodeForChunks | LengthMismatch

  datatype Dirent = Dirent(name: Bytes, inode: i64, typ: u8)

  datatype NestedEntry = NestedEntry(name: Bytes, identity: Bytes)

  datatype DirentNode = DirentNode(name: Bytes, node: Node)

  datatype LookupResult = LookupResult(dirent: Option<Dirent>, nested: Option<Bytes>)

  datatype Extent = Extent(identity: Bytes, llen: u32, clen: u32, keyID: u32, alg: u8, offset: nat)

  datatype XattrEntry = XattrEntry(name: Bytes, value: Bytes)

  // ---------- Scans ----------

  /** Where an edge or a nested locator sits: its directory, and its name if that can be read. */
  datatype Site = Site(parent: i64, name: Option<Bytes>)

  function EdgeSite(e: RawEdge): Site { Site(e.parent, e.name) }

  function NestedSite(n: RawNested): Site { Site(n.parent, n.name) }

  ghost function IsAt<T>(at: T -> Site, parent: i64, name: Bytes): T -> bool {
    x => at(x) == Site(parent, Some(name))
  }

  ghost function IsUnder<T>(at: T -> Site, parent: i64): T -> bool {
    x => at(x).parent == parent
  }

  function DirentOf(e: RawEdge): Option<Dirent> {
    if e.name.None? then None else Some(Dirent(e.name.value, e.inode, e.typ))
  }

  function NestedEntryOf(n: RawNested): Option<NestedEntry> {
    if n.name.None? || n.identity.None? then None else Some(NestedEntry(n.name.value, n.identity.value))
  }

  ghost function JoinedBy(nodes: seq<Node>): RawEdge -> Option<DirentNode> {
    (e: RawEdge) =>
      if e.name.None? || e.node >= |nodes| || nodes[e.node].inode != e.inode then None
      else Some(DirentNode(e.name.value, nodes[e.node]))
  }

  function XattrEntryOf(x: RawXattr): Option<XattrEntry> {
    if x.name.None? || x.value.None? then None else Some(XattrEntry(x.name.value, x.value.value))
  }

  function NodeInode(n: Node): i64 { n.inode }

  function ChunkInode(c: Chunk): i64 { c.inode }

  function BlobInode(b: RawBlob): i64 { b.inode }

  function XattrInode(x: RawXattr): i64 { x.inode }

  ghost function IsOf<T>(key: T -> i64, inode: i64): T -> bool {
    x => key(x) == inode
  }

  ghost function Scanned<T>(r: Option<seq<T>>): Result<seq<T>, ReadError> {
    match r case Some(l) => Ok(l) case None => Err(CorruptCatalog)
  }

  /** Both halves of a transition point are reported when both are there. */
  ghost function LookupScan(v: View, parent: i64, name: Bytes): Result<LookupResult, ReadError> {
    var dirent := match First(v.edges, IsAt(EdgeSite, parent, name))
      case Some(e) => DirentOf(e)
      case None => None;
    match First(v.nested, IsAt(NestedSite, parent, name))
    case None => if dirent.None? then Err(NotExist) else Ok(LookupResult(dirent, None))
    case Some(n) => if n.identity.None? then Err(CorruptCatalog) else Ok(LookupResult(dirent, n.identity))
  }

  ghost function NestedScan(v: View, parent: i64): Result<seq<NestedEntry>, ReadError> {
    Scanned(Scan(v.nested, IsUnder(NestedSite, parent), NestedEntryOf))
  }

  ghost function ReaddirScan(v: View, parent: i64): Result<(seq<Dirent>, seq<NestedEntry>), ReadError> {
    match Scan(v.edges, IsUnder(EdgeSite, parent), DirentOf)
    case None => Err(CorruptCatalog)
    case Some(ents) => match NestedScan(v, parent)
      case Err(e) => Err(e)
      case Ok(nested) => Ok((ents, nested))
  }

  ghost function ReaddirPlusScan(v: View, parent: i64): Result<seq<DirentNode>, ReadError> {
    Scanned(Scan(v.edges, IsUnder(EdgeSite, parent), JoinedBy(v.nodes)))
  }

  ghost function StatScan(v: View, inode: i64): Result<Node, ReadError> {
    match First(v.nodes, IsOf(NodeInode, inode)) case Some(n) => Ok(n) case None => Err(NotExist)
  }

  /** The sum of the logical lengths. */
  ghost function Total(cs: seq<Chunk>): nat {
    if cs == [] then 0 else Total(cs[..|cs| - 1]) + cs[|cs| - 1].llen
  }

  ghost function ExtentTotal(es: seq<Extent>): nat {
    if es == [] then 0 else ExtentTotal(es[..|es| - 1]) + es[|es| - 1].llen
  }

  /** Extents with the logical offsets a reader fills in: the running sum of the lengths before. */
  ghost function Extents(cs: seq<Chunk>): (es: seq<Extent>)
    ensures |es| == |cs|
  {
    if cs == [] then []
    else
      var c, front := cs[|cs| - 1], cs[..|cs| - 1];
      Extents(front) + [Extent(c.identity, c.llen, c.clen, c.keyID, c.alg, Total(front))]
  }

  /** Offsets are the running sums the writer never stored. */
  lemma {:induction false} ExtentsAre(cs: seq<Chunk>, i: nat)
    requires i < |cs|
    ensures var c := cs[i];
      Extents(cs)[i] == Extent(c.identity, c.llen, c.clen, c.keyID, c.alg, Total(cs[..i]))
  {
    var n := |cs| - 1;
    if i < n {
      ExtentsAre(cs[..n], i);
      assert cs[..n][..i] == cs[..i];
    }
  }

  function Itself(c: Chunk): Option<Chunk> {
    Some(c)
  }

  /** The chunk records of one inode, in stored order. */
  ghost function ChunkList(cs: seq<Chunk>, inode: i64): seq<Chunk> {
    match Scan(cs, IsOf(ChunkInode, inode), Itself) case Some(l) => l case None => []
  }

  /** Chunks have to fill their node; None is the nil list of a file without any. */
  ghost function Filling(cs: seq<Chunk>, stat: Result<Node, ReadError>): Result<Option<seq<Extent>>, ReadError> {
    if cs == [] then Ok(None)
    else match stat
      case Err(_) => Err(NoNodeForChunks)
      case Ok(n) => if Total(cs) != n.length then Err(LengthMismatch) else Ok(Some(Extents(cs)))
  }

  ghost function ChunksScan(v: View, inode: i64): Result<Option<seq<Extent>>, ReadError> {
    Filling(ChunkList(v.chunks, inode), StatScan(v, inode))
  }

  ghost function BlobScan(bs: seq<RawBlob>, inode: i64): Result<Option<Bytes>, ReadError> {
    match First(bs, IsOf(BlobInode, inode))
    case None => Ok(None)
    case Some(b) => if b.data.None? then Err(CorruptCatalog) else Ok(b.data)
  }

  /** None is the nil a caller takes for "no inline row": what a slice of an absent arena is, too. */
  ghost function InlineScan(v: View, inode: i64): Result<Option<Bytes>, ReadError> {
    match BlobScan(v.inline, inode)
    case Err(e) => Err(e)
    case Ok(b) => if b.Some? && !v.blobsPresent then Ok(None) else Ok(b)
  }

  ghost function SymlinkScan(v: View, inode: i64): Result<Bytes, ReadError> {
    match BlobScan(v.symlinks, inode)
    case Err(e) => Err(e)
    case Ok(b) => if b.None? then Err(NotExist) else Ok(b.value)
  }

  ghost function XattrsScan(v: View, inode: i64): Result<seq<XattrEntry>, ReadError> {
    Scanned(Scan(v.xattrs, IsOf(XattrInode, inode), XattrEntryOf))
  }

  // ---------- Searches ----------

  /** Where a binary search for an inode ends up, in order or not. */
  ghost function InodeLanding<T>(xs: seq<T>, key: T -> i64, inode: i64): nat {
    Landing(0, |xs|, (k: nat) => k < |xs| && key(xs[k]) >= inode)
  }

  /** What is found there: all that a catalog out of order is sure to answer. */
  ghost function StatSearch(v: View, inode: i64): Result<Node, ReadError> {
    var i := InodeLanding(v.nodes, NodeInode, inode);
    if i < |v.nodes| && v.nodes[i].inode == inode then Ok(v.nodes[i]) else Err(NotExist)
  }

  /** The records of one inode from i on, up to the first of another. */
  ghost function RunFrom(cs: seq<Chunk>, inode: i64, i: nat): seq<Chunk>
    decreases |cs| - i
  {
    if i >= |cs| || cs[i].inode != inode then [] else [cs[i]] + RunFrom(cs, inode, i + 1)
  }

  ghost function ChunksSearch(v: View, inode: i64): Result<Option<seq<Extent>>, ReadError> {
    Filling(RunFrom(v.chunks, inode, InodeLanding(v.chunks, ChunkInode, inode)), StatSearch(v, inode))
  }

  // ---------- Order ----------

  /** a sorts before b by (parent, name); names are only looked at when the parents agree. */
  ghost predicate Follows(a: Site, b: Site) {
    a.parent < b.parent || (a.parent == b.parent && a.name.Some? && b.name.Some? && Less(a.name.value, b.name.value))
  }

  ghost predicate InPlace<T>(xs: seq<T>, at: T -> Site) {
    forall i :: 0 < i < |xs| ==> Follows(at(xs[i - 1]), at(xs[i]))
  }

  ghost predicate EdgePoints(e: RawEdge, nodes: seq<Node>) {
    e.node < |nodes| && nodes[e.node].inode == e.inode
  }

  ghost predicate ChunkPair(a: Chunk, b: Chunk) {
    a.inode == b.inode ==> a.idx < b.idx
  }

  /** Inodes never go down from one record to the next. */
  ghost predicate Climbs<T>(xs: seq<T>, inode: T -> i64) {
    forall i :: 0 < i < |xs| ==> inode(xs[i - 1]) <= inode(xs[i])
  }

  /** What CheckOrder checks, between neighbours only. */
  ghost predicate Ordered(v: View) {
    && InPlace(v.edges, EdgeSite) && InPlace(v.nested, NestedSite)
    && (forall i :: 0 <= i < |v.edges| ==> EdgePoints(v.edges[i], v.nodes))
    && Climbs(v.nodes, NodeInode) && Climbs(v.inline, BlobInode) && Climbs(v.symlinks, BlobInode)
    && Climbs(v.chunks, ChunkInode) && Climbs(v.xattrs, XattrInode)
    && (forall i :: 0 < i < |v.chunks| ==> ChunkPair(v.chunks[i - 1], v.chunks[i]))
  }

  lemma {:induction false} ClimbsFar<T>(xs: seq<T>, inode: T -> i64, i: nat, j: nat)
    requires Climbs(xs, inode) && i <= j < |xs|
    ensures inode(xs[i]) <= inode(xs[j])
    decreases j
  {
    if i < j {
      ClimbsFar(xs, inode, i, j - 1);
    }
  }

  lemma FollowsTransitive(a: Site, b: Site, c: Site)
    requires Follows(a, b) && Follows(b, c)
    ensures Follows(a, c)
  {
    if a.parent == b.parent == c.parent {
      LessTransitive(a.name.value, b.name.value, c.name.value);
    }
  }

  lemma {:induction false} FollowsFar<T>(xs: seq<T>, at: T -> Site, i: nat, j: nat)
    requires i < j < |xs| && InPlace(xs, at)
    ensures Follows(at(xs[i]), at(xs[j]))
    decreases j
  {
    if i < j - 1 {
      FollowsFar(xs, at, i, j - 1);
      FollowsTransitive(at(xs[i]), at(xs[j - 1]), at(xs[j]));
    }
  }

  /** The search predicate: at or after (parent, name); no name means the first entry of the parent. */
  predicate AtOrAfter(p: Site, parent: i64, name: Option<Bytes>) {
    if p.parent != parent then p.parent > parent
    else name.None? || p.name.None? || !Less(p.name.value, name.value)
  }

  lemma SearchMonotone<T>(xs: seq<T>, at: T -> Site, parent: i64, name: Option<Bytes>, i: nat, j: nat)
    requires i <= j < |xs| && InPlace(xs, at) && AtOrAfter(at(xs[i]), parent, name)
    ensures AtOrAfter(at(xs[j]), parent, name)
  {
    if i < j {
      FollowsFar(xs, at, i, j);
      var a, b := at(xs[i]), at(xs[j]);
      if a.parent == b.parent == parent && name.Some? && Less(b.name.value, name.value) {
        LessTransitive(a.name.value, b.name.value, name.value);
      }
    }
  }

  /** i is the first place at or after (parent, name). */
  ghost predicate LowerBound<T>(xs: seq<T>, at: T -> Site, parent: i64, name: Option<Bytes>, i: nat) {
    i <= |xs| && forall k: nat :: k < |xs| ==> (AtOrAfter(at(xs[k]), parent, name) <==> i <= k)
  }

  /** The lower bound of (parent, name) is the only place a match can be. */
  lemma MatchAtLowerBound<T>(xs: seq<T>, at: T -> Site, parent: i64, name: Bytes, i: nat)
    requires InPlace(xs, at) && LowerBound(xs, at, parent, Some(name), i)
    ensures i < |xs| && IsAt(at, parent, name)(xs[i]) ==> First(xs, IsAt(at, parent, name)) == Some(xs[i])
    ensures i == |xs| || !IsAt(at, parent, name)(xs[i]) ==> First(xs, IsAt(at, parent, name)).None?
  {
    LessIrreflexive(name);
    var want := IsAt(at, parent, name);
    forall k | 0 <= k < i
      ensures !want(xs[k])
    {
      assert !AtOrAfter(at(xs[k]), parent, Some(name));
    }
    FirstAt(xs, want, i);
    if i == |xs| || !want(xs[i]) {
      forall k | i < k < |xs|
        ensures !want(xs[k])
      {
        FollowsFar(xs, at, i, k);
        assert AtOrAfter(at(xs[i]), parent, Some(name));
      }
      FirstAt(xs, want, |xs|);
    }
  }

  /** The entries of a directory lie together from its lower bound on. */
  lemma RunAtLowerBound<T>(xs: seq<T>, at: T -> Site, parent: i64, i: nat, j: nat)
    requires InPlace(xs, at) && LowerBound(xs, at, parent, None, i) && i <= j <= |xs|
    requires forall k :: i <= k < j ==> at(xs[k]).parent == parent
    requires j < |xs| ==> at(xs[j]).parent != parent
    ensures forall k :: 0 <= k < i || j <= k < |xs| ==> !IsUnder(at, parent)(xs[k])
  {
    forall k | 0 <= k < i || j <= k < |xs|
      ensures !IsUnder(at, parent)(xs[k])
    {
      if k < i {
        assert !AtOrAfter(at(xs[k]), parent, None);
      } else {
        assert AtOrAfter(at(xs[j]), parent, None);
        if j < k {
          FollowsFar(xs, at, j, k);
        }
      }
    }
  }

  /** The same for arrays kept by inode alone. */
  ghost predicate InodeBound<T>(xs: seq<T>, key: T -> i64, inode: i64, i: nat) {
    i <= |xs| && forall k: nat :: k < |xs| ==> (key(xs[k]) >= inode <==> i <= k)
  }

  lemma RunAtInode<T>(xs: seq<T>, key: T -> i64, inode: i64, i: nat, j: nat)
    requires Climbs(xs, key) && InodeBound(xs, key, inode, i) && i <= j <= |xs|
    requires forall k :: i <= k < j ==> key(xs[k]) == inode
    requires j < |xs| ==> key(xs[j]) != inode
    ensures forall k :: 0 <= k < i || j <= k < |xs| ==> key(xs[k]) != inode
  {
    forall k | j <= k < |xs|
      ensures key(xs[k]) != inode
    {
      ClimbsFar(xs, key, j, k);
    }
  }
}
