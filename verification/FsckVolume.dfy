/**
  What fsck checks, apart from how it walks: catalogs as their readers answer, directories, file
  contents and the routes to them, and when each is sound.
 */
module FsckVolume {
  import opened Bytes
  import opened LittleEndian
  import opened CatalogRecords
  import opened StaticView
  import opened StaticQueries
  import PackIndex

  const TYPE_FILE: u8 := 1
  const TYPE_DIR: u8 := 2
  const TYPE_SYMLINK: u8 := 3
  const ROOT_INODE: i64 := 1
  const ID_LEN := 32
  const I64_MAX := 0x7fff_ffff_ffff_ffff

  // ---------- Readers ----------

  /** One extent as any encoding hands it out; no identity is a hole. */
  datatype FileExtent = FileExtent(identity: Option<Bytes>, llen: i64, clen: i64, offset: int)

  /** A catalog by its answers; ordered is false when the order check finds fault. */
  datatype Reader = Reader(ordered: bool,
                           readdir: i64 -> Result<(seq<Dirent>, seq<NestedEntry>), ReadError>,
                           stat: i64 -> Result<Node, ReadError>,
                           symlink: i64 -> Result<Bytes, ReadError>,
                           inline: i64 -> Result<Option<Bytes>, ReadError>,
                           chunks: i64 -> Result<Option<seq<FileExtent>>, ReadError>)

  ghost function LogicalSum(es: seq<FileExtent>): int {
    if es == [] then 0 else LogicalSum(es[..|es| - 1]) + es[|es| - 1].llen
  }

  /** The chunks a reader gives for an inode fill its node, each at the running sum of those before. */
  ghost predicate FillsNode(r: Reader, inode: i64) {
    r.chunks(inode).Ok? && r.chunks(inode).value.Some? ==>
      var es := r.chunks(inode).value.value;
      && r.stat(inode).Ok? && LogicalSum(es) == r.stat(inode).value.length
      && forall i :: 0 <= i < |es| ==> es[i].offset == LogicalSum(es[..i])
  }

  /** What every encoding promises. */
  ghost predicate Lawful(r: Reader) {
    && (forall inode: i64 :: r.stat(inode).Ok? ==> r.stat(inode).value.inode == inode)
    && (forall inode: i64 :: FillsNode(r, inode))
  }

  ghost function ShownExtents(es: seq<Extent>): (shown: seq<FileExtent>)
    ensures |shown| == |es|
    ensures forall i :: 0 <= i < |es| ==>
      shown[i] == FileExtent(Some(es[i].identity), es[i].llen, es[i].clen, es[i].offset)
  {
    seq(|es|, i requires 0 <= i < |es| => FileExtent(Some(es[i].identity), es[i].llen, es[i].clen, es[i].offset))
  }

  ghost function Shown(r: Result<Option<seq<Extent>>, ReadError>): Result<Option<seq<FileExtent>>, ReadError> {
    match r
    case Err(e) => Err(e)
    case Ok(None) => Ok(None)
    case Ok(Some(es)) => Ok(Some(ShownExtents(es)))
  }

  /** r answers for nodes and chunks what the static reader's searches find, in order or not. */
  ghost predicate AnswersBySearch(r: Reader, v: View) {
    forall inode: i64 :: r.stat(inode) == StatSearch(v, inode) && r.chunks(inode) == Shown(ChunksSearch(v, inode))
  }

  lemma {:induction false} ShownSum(cs: seq<Chunk>, i: nat)
    requires i <= |cs|
    ensures LogicalSum(ShownExtents(Extents(cs))[..i]) == Total(cs[..i])
  {
    if i > 0 {
      ShownSum(cs, i - 1);
      var es := ShownExtents(Extents(cs));
      assert es[..i][..i - 1] == es[..i - 1] && cs[..i][..i - 1] == cs[..i - 1];
      ExtentsAre(cs, i - 1);
    }
  }

  lemma StaticFills(r: Reader, v: View, inode: i64)
    requires AnswersBySearch(r, v)
    ensures FillsNode(r, inode)
  {
    hide Extents, Total, LogicalSum, RunFrom, StatSearch, InodeLanding;
    if r.chunks(inode).Ok? && r.chunks(inode).value.Some? {
      var cs := RunFrom(v.chunks, inode, InodeLanding(v.chunks, ChunkInode, inode));
      var es := ShownExtents(Extents(cs));
      ShownSum(cs, |cs|);
      assert es[..|cs|] == es && cs[..|cs|] == cs;
      forall i | 0 <= i < |es|
        ensures es[i].offset == LogicalSum(es[..i])
      {
        ShownSum(cs, i);
        ExtentsAre(cs, i);
      }
    }
  }

  /** Whatever its bytes, ordered or not, an opened static catalog keeps the promises fsck relies on. */
  lemma StaticLawful(r: Reader, v: View)
    requires AnswersBySearch(r, v)
    ensures Lawful(r)
  {
    hide FillsNode, InodeLanding;
    forall inode: i64
      ensures FillsNode(r, inode) && (r.stat(inode).Ok? ==> r.stat(inode).value.inode == inode)
    {
      StaticFills(r, v, inode);
    }
  }

  // ---------- The volume ----------

  /**
    A catalog-class object as fetched and decoded; honest unless its bytes hash to something else, and a
    mismatch if they do and do not open either.
   */
  datatype Object = Unusable(mismatch: bool) | Usable(reader: Reader, honest: bool)

  datatype Shard = Shard(first: u64, last: u64, identity: Bytes)

  /** Objects in no listed pack are not in the map. */
  datatype Volume = Volume(root: Bytes, objects: map<Bytes, Object>, shards: seq<Shard>) {
    ghost function Opened(id: Bytes): Option<Reader> {
      if id in objects && objects[id].Usable? then Some(objects[id].reader) else None
    }

    ghost predicate Honest(id: Bytes) {
      id in objects && objects[id].Usable? && objects[id].honest
    }
  }

  /** The first shard whose inclusive range covers the inode. */
  function ShardFor(shards: seq<Shard>, ino: u64): (s: Option<Shard>)
    ensures s.Some? ==> exists i :: 0 <= i < |shards| && shards[i] == s.value && s.value.first <= ino <= s.value.last
                                    && forall j :: 0 <= j < i ==> !(shards[j].first <= ino <= shards[j].last)
    ensures s.None? ==> forall i :: 0 <= i < |shards| ==> !(shards[i].first <= ino <= shards[i].last)
  {
    if shards == [] then None
    else if shards[0].first <= ino <= shards[0].last then Some(shards[0])
    else ShardFor(shards[1..], ino)
  }

  // ---------- Files ----------

  /** Where a file's content records are: with its node, or in a shard once it has several links. */
  datatype Routed = NoShard | ShardUnusable | NoRecord | Content(reader: Reader, length: i64)

  ghost function Route(vol: Volume, r: Reader, n: Node): Routed {
    if n.nlink <= 1 then Content(r, n.length)
    else match ShardFor(vol.shards, ToU64(n.inode))
      case None => NoShard
      case Some(sh) => match vol.Opened(sh.identity)
        case None => ShardUnusable
        case Some(scat) => match scat.stat(n.inode)
          case Err(_) => NoRecord
          case Ok(sn) => Content(scat, sn.length)
  }

  /** The extent's own numbers make sense. */
  predicate Sized(e: FileExtent) {
    e.llen >= 0 && e.clen >= 0 && 0 <= e.offset <= I64_MAX - e.llen
  }

  /** Sized, and a hole or a chunk some pack holds at the stored length the extent names. */
  ghost predicate ExtentOk(recs: seq<Bytes>, e: FileExtent)
    requires PackIndex.Wide(recs)
  {
    Sized(e) && (e.identity.Some? ==> |e.identity.value| == ID_LEN && PackIndex.Placed(recs, e.identity.value, e.clen))
  }

  ghost predicate ExtentsOk(recs: seq<Bytes>, es: seq<FileExtent>)
    requires PackIndex.Wide(recs)
  {
    forall i :: 0 <= i < |es| ==> ExtentOk(recs, es[i])
  }

  /** Inline data of the node's length, or extents that resolve, or nothing for an empty file. */
  ghost predicate ContentOk(recs: seq<Bytes>, content: Reader, n: Node)
    requires PackIndex.Wide(recs)
  {
    match content.inline(n.inode)
    case Err(_) => false
    case Ok(Some(data)) => |data| == n.length
    case Ok(None) => match content.chunks(n.inode)
      case Err(_) => false
      case Ok(None) => n.length <= 0
      case Ok(Some(es)) => ExtentsOk(recs, es)
  }

  ghost predicate FileOk(vol: Volume, recs: seq<Bytes>, r: Reader, n: Node)
    requires PackIndex.Wide(recs)
  {
    var route := Route(vol, r, n);
    route.Content? && route.length == n.length && ContentOk(recs, route.reader, n)
  }

  ghost predicate HasInline(content: Reader, n: Node) {
    content.inline(n.inode).Ok? && content.inline(n.inode).value.Some?
  }

  /** The file has inline data where its content records are. */
  ghost predicate FileInline(vol: Volume, r: Reader, n: Node) {
    Route(vol, r, n).Content? && HasInline(Route(vol, r, n).reader, n)
  }

  /** What a sound file's extents amount to: they tile its length exactly. */
  lemma SoundFileTiles(vol: Volume, recs: seq<Bytes>, r: Reader, n: Node)
    requires PackIndex.Wide(recs) && FileOk(vol, recs, r, n)
    requires Lawful(Route(vol, r, n).reader) && r.stat(n.inode) == Ok(n)
    ensures var content := Route(vol, r, n).reader;
      && (content.inline(n.inode).value.Some? ==> |content.inline(n.inode).value.value| == n.length)
      && (content.inline(n.inode).value.None? && content.chunks(n.inode).value.Some? ==>
            var es := content.chunks(n.inode).value.value;
            && LogicalSum(es) == n.length && ExtentsOk(recs, es)
            && forall i :: 0 <= i < |es| ==> es[i].offset == LogicalSum(es[..i]))
  {
    hide ExtentsOk, LogicalSum;
    assert FillsNode(Route(vol, r, n).reader, n.inode);
  }

  // ---------- Chunks named ----------

  /** An extent that gets as far as the index. */
  predicate Resolves(e: FileExtent) {
    Sized(e) && e.identity.Some? && |e.identity.value| == ID_LEN
  }

  ghost function ExtentIds(es: seq<FileExtent>): set<Bytes> {
    set i | 0 <= i < |es| && Resolves(es[i]) :: es[i].identity.value
  }

  ghost function ContentIds(content: Reader, n: Node): set<Bytes> {
    if content.inline(n.inode) == Ok(None) && content.chunks(n.inode).Ok? && content.chunks(n.inode).value.Some?
    then ExtentIds(content.chunks(n.inode).value.value) else {}
  }

  /** The chunk identities one file names, wherever its content records are. */
  ghost function FileIds(vol: Volume, r: Reader, n: Node): set<Bytes> {
    match Route(vol, r, n)
    case Content(content, _) => ContentIds(content, n)
    case _ => {}
  }

  // ---------- Directories ----------

  ghost function Entries(r: Reader, ino: i64): seq<Dirent> {
    match r.readdir(ino) case Ok(p) => p.0 case Err(_) => []
  }

  ghost function Locators(r: Reader, ino: i64): seq<NestedEntry> {
    match r.readdir(ino) case Ok(p) => p.1 case Err(_) => []
  }

  /** The locator under a name; a repeated name keeps the last. */
  function Locator(ns: seq<NestedEntry>, name: Bytes): Option<Bytes> {
    if ns == [] then None
    else if ns[|ns| - 1].name == name then Some(ns[|ns| - 1].identity)
    else Locator(ns[..|ns| - 1], name)
  }

  lemma {:induction false} LocatorFound(ns: seq<NestedEntry>, name: Bytes)
    ensures Locator(ns, name).Some? ==>
      exists k :: 0 <= k < |ns| && ns[k].name == name && ns[k].identity == Locator(ns, name).value
  {
    if ns != [] && ns[|ns| - 1].name != name {
      LocatorFound(ns[..|ns| - 1], name);
      if Locator(ns, name).Some? {
        var front := ns[..|ns| - 1];
        var k :| 0 <= k < |front| && front[k].name == name && front[k].identity == Locator(ns, name).value;
        assert ns[k] == front[k];
      }
    }
  }

  /** Where an entry leads: nowhere, into a directory of this catalog, or into another catalog. */
  datatype Turn = Lost | Leaf | Enters(ino: i64) | Crosses(id: Bytes) | BadLocator

  ghost function TurnOf(r: Reader, ns: seq<NestedEntry>, d: Dirent): Turn {
    match r.stat(d.inode)
    case Err(_) => Lost
    case Ok(n) =>
      if n.typ != TYPE_DIR then Leaf
      else match Locator(ns, d.name)
        case None => Enters(d.inode)
        case Some(id) => if |id| != ID_LEN then BadLocator else Crosses(id)
  }

  /** The entry has a node of its own type, a target if it is a symlink, and a whole locator if any. */
  ghost predicate EntryOk(r: Reader, ns: seq<NestedEntry>, d: Dirent) {
    && r.stat(d.inode).Ok? && r.stat(d.inode).value.typ == d.typ
    && (d.typ == TYPE_SYMLINK ==> r.symlink(d.inode).Ok?)
    && !TurnOf(r, ns, d).BadLocator?
  }

  /** The transition point has its dirent half. */
  ghost predicate HasDirent(ds: seq<Dirent>, n: NestedEntry) {
    exists k :: 0 <= k < |ds| && ds[k].name == n.name
  }

  ghost predicate DirOk(r: Reader, ino: i64) {
    && r.readdir(ino).Ok?
    && (forall k :: 0 <= k < |Entries(r, ino)| ==> EntryOk(r, Locators(r, ino), Entries(r, ino)[k]))
    && (forall k :: 0 <= k < |Locators(r, ino)| ==> HasDirent(Entries(r, ino), Locators(r, ino)[k]))
  }

  // ---------- Every catalog there could be ----------

  /** The root and every identity a locator of an openable catalog names. */
  ghost function Nameable(vol: Volume): set<Bytes> {
    {vol.root} + set id, ino: int, k: int |
      id in vol.objects && vol.objects[id].Usable? && -U63_RANGE <= ino < U63_RANGE
      && 0 <= k < |Locators(vol.objects[id].reader, ino)| :: Locators(vol.objects[id].reader, ino)[k].identity
  }

  lemma CrossingNameable(vol: Volume, id: Bytes, ino: i64, d: Dirent)
    requires vol.Opened(id).Some? && TurnOf(vol.Opened(id).value, Locators(vol.Opened(id).value, ino), d).Crosses?
    ensures TurnOf(vol.Opened(id).value, Locators(vol.Opened(id).value, ino), d).id in Nameable(vol)
  {
    LocatorFound(Locators(vol.Opened(id).value, ino), d.name);
  }
}
