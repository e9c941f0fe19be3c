/**
  What a reader makes of a catalog's sections: each array as the records its bytes decode to, and
  every query as a linear scan of those records.
 */
module StaticView {
  import opened Arithmetic
  import opened Bytes
  import opened LittleEndian
  import opened Arena
  import opened CatalogRecords
  import opened StaticFormat
  import opened StaticEncoding

  // ---------- Sections ----------

  /** The attached sections.  An absent arena differs from an empty one: slices of it are nil. */
  datatype Sections = Sections(names: Bytes, blobs: Option<Bytes>, edges: Bytes, nodes: Bytes, chunks: Bytes,
                               inline: Bytes, xattrs: Bytes, symlinks: Bytes, nested: Bytes, identities: Bytes,
                               metaRaw: Option<Bytes>)
  {
    function BlobArena(): Bytes {
      match blobs case Some(b) => b case None => []
    }

    /** Every record array is a whole number of records. */
    predicate Shaped() {
      && |edges| % EDGE_LEN == 0 && |nodes| % NODE_LEN == 0 && |chunks| % CHUNK_LEN == 0
      && |inline| % INLINE_LEN == 0 && |xattrs| % XATTR_LEN == 0 && |symlinks| % SYMLINK_LEN == 0
      && |nested| % NESTED_LEN == 0 && |identities| % IDENTITY_LEN == 0
      && (metaRaw.Some? ==> |metaRaw.value| >= META_LEN)
    }

    /** The arenas are short enough for a 32-bit offset plus a 32-bit length not to wrap. */
    predicate Addressable() {
      |names| < U32_RANGE && |BlobArena()| < U32_RANGE
    }

    predicate Usable() {
      Shaped() && Addressable()
    }
  }

  const NO_SECTIONS := Sections([], None, [], [], [], [], [], [], [], [], None)

  /** Records one section; an unknown id is skipped, a partial record array refused. */
  function Attached(s: Sections, id: u32, data: Bytes): Option<Sections> {
    if id == SEC_NAMES then Some(s.(names := data))
    else if id == SEC_BLOBS then Some(s.(blobs := Some(data)))
    else if id == SEC_EDGES then if |data| % EDGE_LEN != 0 then None else Some(s.(edges := data))
    else if id == SEC_NODES then if |data| % NODE_LEN != 0 then None else Some(s.(nodes := data))
    else if id == SEC_CHUNKS then if |data| % CHUNK_LEN != 0 then None else Some(s.(chunks := data))
    else if id == SEC_INLINE then if |data| % INLINE_LEN != 0 then None else Some(s.(inline := data))
    else if id == SEC_XATTRS then if |data| % XATTR_LEN != 0 then None else Some(s.(xattrs := data))
    else if id == SEC_SYMLINKS then if |data| % SYMLINK_LEN != 0 then None else Some(s.(symlinks := data))
    else if id == SEC_NESTED then if |data| % NESTED_LEN != 0 then None else Some(s.(nested := data))
    else if id == SEC_IDENTITIES then if |data| % IDENTITY_LEN != 0 then None else Some(s.(identities := data))
    else if id == SEC_META then if |data| < META_LEN then None else Some(s.(metaRaw := Some(data)))
    else Some(s)
  }

  // ---------- The section table ----------

  datatype Entry = Entry(id: u32, off: u64, len: u64)

  function EntryAt(buf: Bytes, base: nat, i: nat): Entry
    requires base + (i + 1) * SECTION_ENTRY_LEN <= |buf|
  {
    var r := buf[base + i * SECTION_ENTRY_LEN..base + (i + 1) * SECTION_ENTRY_LEN];
    Entry(U32At(r, 0), U64At(r, 8), U64At(r, 16))
  }

  /** Aligned, and inside the blob. */
  predicate EntryOk(buf: Bytes, e: Entry) {
    e.off % 8 == 0 && e.off <= |buf| && e.len <= |buf| - e.off
  }

  function DataOf(buf: Bytes, e: Entry): Bytes
    requires EntryOk(buf, e)
  {
    buf[e.off..e.off + e.len]
  }

  /** The sections the first n table entries name, or None when one of them is out of place. */
  ghost function ReadTable(buf: Bytes, base: nat, n: nat): (r: Option<seq<Sec>>)
    requires base + n * SECTION_ENTRY_LEN <= |buf|
    ensures r.Some? ==> |r.value| == n
  {
    if n == 0 then Some([])
    else
      var front, e := ReadTable(buf, base, n - 1), EntryAt(buf, base, n - 1);
      if front.None? || !EntryOk(buf, e) then None
      else Some(front.value + [Sec(e.id, DataOf(buf, e))])
  }

  ghost function AttachAll(secs: seq<Sec>): Option<Sections> {
    if secs == [] then Some(NO_SECTIONS)
    else
      var front, last := AttachAll(secs[..|secs| - 1]), secs[|secs| - 1];
      if front.None? then None else Attached(front.value, last.id, last.data)
  }

  lemma {:induction false} AttachAllShaped(secs: seq<Sec>)
    ensures AttachAll(secs).Some? ==> AttachAll(secs).value.Shaped()
  {
    if secs != [] {
      AttachAllShaped(secs[..|secs| - 1]);
    }
  }

  lemma {:induction false} AttachFails(secs: seq<Sec>, i: nat)
    requires i <= |secs| && AttachAll(secs[..i]).None?
    ensures AttachAll(secs).None?
    decreases |secs| - i
  {
    if i < |secs| {
      assert secs[..i + 1][..i] == secs[..i];
      AttachFails(secs, i + 1);
    } else {
      assert secs[..i] == secs;
    }
  }

  lemma {:induction false} TablePrefix(buf: Bytes, base: nat, i: nat, n: nat)
    requires i <= n && base + n * SECTION_ENTRY_LEN <= |buf|
    ensures ReadTable(buf, base, i).None? ==> ReadTable(buf, base, n).None?
    ensures ReadTable(buf, base, n).Some? ==> ReadTable(buf, base, i) == Some(ReadTable(buf, base, n).value[..i])
    decreases n - i
  {
    if i < n {
      TablePrefix(buf, base, i, n - 1);
      if ReadTable(buf, base, n).Some? {
        assert ReadTable(buf, base, n).value[..i] == ReadTable(buf, base, n - 1).value[..i];
      }
    } else if ReadTable(buf, base, n).Some? {
      assert ReadTable(buf, base, n).value[..n] == ReadTable(buf, base, n).value;
    }
  }

  // ---------- Arenas ----------

  /** The only way into an arena: bounds-checked, the end computed in 32 bits. */
  function Slice(arena: Bytes, off: u32, len: u32): (r: Option<Bytes>)
    requires |arena| < U32_RANGE
    ensures r.Some? <==> off + len <= |arena|
    ensures r.Some? ==> r.value == arena[off..off + len]
  {
    if off + len > |arena| then None else Some(arena[off..U32(off + len)])
  }

  /** A span that passes the bounds check ends where it should: not before its start, nor past the arena. */
  predicate SpanSafe(size: nat, off: u32, len: u32) {
    off + len <= size ==> off <= U32(off + len) <= size
  }

  /** Exactly the arenas under 4 GiB are safe to slice so; past that an end can wrap around. */
  lemma ArenaSafeExactly(size: nat)
    ensures (forall off: u32, len: u32 :: SpanSafe(size, off, len)) <==> size < U32_RANGE
  {
    if size < U32_RANGE {
      forall off: u32, len: u32
        ensures SpanSafe(size, off, len)
      {
        SpanShort(size, off, len);
      }
    } else {
      SpanWraps(size);
    }
  }

  lemma SpanShort(size: nat, off: u32, len: u32)
    requires size < U32_RANGE
    ensures SpanSafe(size, off, len)
  {
    if off + len <= size {
      assert (off + len) % U32_RANGE == off + len;
    }
  }

  lemma SpanWraps(size: nat)
    requires size >= U32_RANGE
    ensures !SpanSafe(size, U32_RANGE - 1, 1)
  {
    assert U32(U32_RANGE) == 0;
  }

  /** An absent meta section leaves the strings empty. */
  function LoadMeta(s: Sections): Option<Meta>
    requires s.Usable()
  {
    if s.metaRaw.None? then Some(Meta([], [], []))
    else
      var raw, blobs := s.metaRaw.value, s.BlobArena();
      var uuid := Slice(blobs, U32At(raw, 0), U32At(raw, 4));
      var path := Slice(blobs, U32At(raw, 8), U32At(raw, 12));
      var algo := Slice(blobs, U32At(raw, 16), U32At(raw, 20));
      if uuid.None? || path.None? || algo.None? then None
      else Some(Meta(uuid.value, path.value, algo.value))
  }

  // ---------- Opening ----------

  datatype Parsed = Parsed(header: Header, sec: Sections, meta: Meta)

  /** Names and blobs sections that fit 32-bit addressing, wherever the table puts them. */
  ghost predicate ArenasFit(buf: Bytes) {
    match DecodeHeader(buf)
    case Err(_) => true
    case Ok(h) =>
      h.headerLen + h.sectionCount * SECTION_ENTRY_LEN <= |buf| ==>
        match ReadTable(buf, h.headerLen, h.sectionCount)
        case None => true
        case Some(secs) => match AttachAll(secs)
          case None => true
          case Some(s) => s.Addressable()
  }

  /** Structural validation, once: every failure but a foreign major version is corruption. */
  ghost function Parse(buf: Bytes): Result<Parsed, OpenError>
    requires ArenasFit(buf)
  {
    match DecodeHeader(buf)
    case Err(e) => Err(e)
    case Ok(h) =>
      if h.headerLen + h.sectionCount * SECTION_ENTRY_LEN > |buf| then Err(Corrupt)
      else
        match ReadTable(buf, h.headerLen, h.sectionCount)
        case None => Err(Corrupt)
        case Some(secs) =>
          AttachAllShaped(secs);
          match AttachAll(secs)
          case None => Err(Corrupt)
          case Some(s) =>
            match LoadMeta(s)
            case None => Err(Corrupt)
            case Some(m) => Ok(Parsed(h, s, m))
  }

  lemma {:induction false} TableInside(buf: Bytes, base: nat, n: nat)
    requires base + n * SECTION_ENTRY_LEN <= |buf| && ReadTable(buf, base, n).Some?
    ensures forall k :: 0 <= k < n ==> |ReadTable(buf, base, n).value[k].data| <= |buf|
  {
    if n > 0 {
      TableInside(buf, base, n - 1);
    }
  }

  lemma {:induction false} AttachInside(secs: seq<Sec>, limit: nat)
    requires AttachAll(secs).Some? && forall k :: 0 <= k < |secs| ==> |secs[k].data| <= limit
    ensures |AttachAll(secs).value.names| <= limit && |AttachAll(secs).value.BlobArena()| <= limit
  {
    if secs != [] {
      AttachInside(secs[..|secs| - 1], limit);
    }
  }

  /** Any blob under 4 GiB, sorted or not, corrupt or not, may be opened. */
  lemma SmallBlobsFit(buf: Bytes)
    requires |buf| < U32_RANGE
    ensures ArenasFit(buf)
  {
    if DecodeHeader(buf).Ok? {
      var h := DecodeHeader(buf).value;
      if h.headerLen + h.sectionCount * SECTION_ENTRY_LEN <= |buf| {
        var table := ReadTable(buf, h.headerLen, h.sectionCount);
        if table.Some? {
          TableInside(buf, h.headerLen, h.sectionCount);
          if AttachAll(table.value).Some? {
            AttachInside(table.value, |buf|);
          }
        }
      }
    }
  }

  // ---------- Forward compatibility ----------

  predicate Known(id: u32) {
    1 <= id <= 11
  }

  ghost function OnlyKnown(secs: seq<Sec>): seq<Sec> {
    if secs == [] then []
    else
      var last := secs[|secs| - 1];
      OnlyKnown(secs[..|secs| - 1]) + (if Known(last.id) then [last] else [])
  }

  /** Sections a later minor version adds, anywhere in the table, change nothing. */
  lemma {:induction false} UnknownSectionsIgnored(secs: seq<Sec>)
    ensures AttachAll(OnlyKnown(secs)) == AttachAll(secs)
  {
    if secs != [] {
      var n := |secs| - 1;
      UnknownSectionsIgnored(secs[..n]);
      var known := OnlyKnown(secs[..n]);
      if Known(secs[n].id) {
        assert OnlyKnown(secs) == known + [secs[n]];
        assert (known + [secs[n]])[..|known|] == known;
      } else {
        assert OnlyKnown(secs) == known;
      }
    }
  }

  /** Two blobs whose tables name the same known sections read the same, whatever their header lengths. */
  lemma SameKnownSectionsReadSame(a: Bytes, b: Bytes, ha: Header, hb: Header)
    requires ArenasFit(a) && ArenasFit(b)
    requires DecodeHeader(a) == Ok(ha) && DecodeHeader(b) == Ok(hb)
    requires ha.headerLen + ha.sectionCount * SECTION_ENTRY_LEN <= |a|
    requires hb.headerLen + hb.sectionCount * SECTION_ENTRY_LEN <= |b|
    requires ReadTable(a, ha.headerLen, ha.sectionCount).Some? && ReadTable(b, hb.headerLen, hb.sectionCount).Some?
    requires OnlyKnown(ReadTable(a, ha.headerLen, ha.sectionCount).value)
          == OnlyKnown(ReadTable(b, hb.headerLen, hb.sectionCount).value)
    ensures Parse(a).Ok? <==> Parse(b).Ok?
    ensures Parse(a).Ok? ==> Parse(a).value.sec == Parse(b).value.sec && Parse(a).value.meta == Parse(b).value.meta
  {
    UnknownSectionsIgnored(ReadTable(a, ha.headerLen, ha.sectionCount).value);
    UnknownSectionsIgnored(ReadTable(b, hb.headerLen, hb.sectionCount).value);
  }

  // ---------- Records as their bytes decode ----------

  datatype RawEdge = RawEdge(parent: i64, inode: i64, name: Option<Bytes>, typ: u8, node: u32)

  datatype RawBlob = RawBlob(inode: i64, data: Option<Bytes>)

  datatype RawXattr = RawXattr(inode: i64, name: Option<Bytes>, value: Option<Bytes>)

  /** slot is the identity's index as stored; identity is None when there is no such slot. */
  datatype RawNested = RawNested(parent: i64, name: Option<Bytes>, slot: u32, identity: Option<Bytes>)

  function DecodeEdge(r: Bytes, names: Bytes): RawEdge
    requires |r| == EDGE_LEN && |names| < U32_RANGE
  {
    RawEdge(I64At(r, 0), I64At(r, 8), Slice(names, U32At(r, 16), U16At(r, 20)), U8At(r, 22), U32At(r, 24))
  }

  function DecodeChunk(r: Bytes): Chunk
    requires |r| == CHUNK_LEN
  {
    Chunk(I64At(r, 0), U32At(r, 8), r[32..64], U32At(r, 12), U32At(r, 16), U8At(r, 24), U32At(r, 20))
  }

  function DecodeBlob(r: Bytes, blobs: Bytes): RawBlob
    requires |r| == INLINE_LEN && |blobs| < U32_RANGE
  {
    RawBlob(I64At(r, 0), Slice(blobs, U32At(r, 8), U32At(r, 12)))
  }

  function DecodeXattr(r: Bytes, names: Bytes, blobs: Bytes): RawXattr
    requires |r| == XATTR_LEN && |names| < U32_RANGE && |blobs| < U32_RANGE
  {
    RawXattr(I64At(r, 0), Slice(names, U32At(r, 8), U16At(r, 12)), Slice(blobs, U32At(r, 16), U32At(r, 20)))
  }

  function IdentityAt(identities: Bytes, slot: u32): Option<Bytes> {
    var off := slot * IDENTITY_LEN;
    if off + IDENTITY_LEN > |identities| then None else Some(identities[off..off + IDENTITY_LEN])
  }

  function DecodeNested(r: Bytes, names: Bytes, identities: Bytes): RawNested
    requires |r| == NESTED_LEN && |names| < U32_RANGE
  {
    RawNested(I64At(r, 0), Slice(names, U32At(r, 8), U16At(r, 12)), U32At(r, 16), IdentityAt(identities, U32At(r, 16)))
  }

  /** How many records a section holds. */
  function Count(sec: Bytes, w: nat): (n: nat)
    requires w > 0
    ensures n * w <= |sec|
  {
    |sec| / w
  }

  function RecAt(sec: Bytes, w: nat, i: nat): (r: Bytes)
    requires w > 0 && i < Count(sec, w)
    ensures |r| == w
  {
    FitsBefore(i, Count(sec, w), w);
    Rec(sec, w, i)
  }

  lemma FitsBefore(i: nat, n: nat, w: nat)
    requires i < n
    ensures (i + 1) * w <= n * w
  {
    assert n * w == (i + 1) * w + (n - i - 1) * w;
    MultipleIsFar(n - i - 1, w);
  }

  ghost function Edges(s: Sections): (es: seq<RawEdge>)
    requires s.Addressable()
    ensures |es| == Count(s.edges, EDGE_LEN)
    ensures forall i :: 0 <= i < |es| ==> es[i] == DecodeEdge(RecAt(s.edges, EDGE_LEN, i), s.names)
  {
    seq(Count(s.edges, EDGE_LEN), i requires 0 <= i < Count(s.edges, EDGE_LEN) =>
      DecodeEdge(RecAt(s.edges, EDGE_LEN, i), s.names))
  }

  ghost function Nodes(s: Sections): (ns: seq<Node>)
    ensures |ns| == Count(s.nodes, NODE_LEN)
    ensures forall i :: 0 <= i < |ns| ==> ns[i] == DecodeNode(RecAt(s.nodes, NODE_LEN, i))
  {
    seq(Count(s.nodes, NODE_LEN), i requires 0 <= i < Count(s.nodes, NODE_LEN) =>
      DecodeNode(RecAt(s.nodes, NODE_LEN, i)))
  }

  ghost function Chunks(s: Sections): (cs: seq<Chunk>)
    ensures |cs| == Count(s.chunks, CHUNK_LEN)
    ensures forall i :: 0 <= i < |cs| ==> cs[i] == DecodeChunk(RecAt(s.chunks, CHUNK_LEN, i))
  {
    seq(Count(s.chunks, CHUNK_LEN), i requires 0 <= i < Count(s.chunks, CHUNK_LEN) =>
      DecodeChunk(RecAt(s.chunks, CHUNK_LEN, i)))
  }

  /** The inline and symlink arrays share a record. */
  ghost function BlobRecs(sec: Bytes, blobs: Bytes): (bs: seq<RawBlob>)
    requires |blobs| < U32_RANGE
    ensures |bs| == Count(sec, INLINE_LEN)
    ensures forall i :: 0 <= i < |bs| ==> bs[i] == DecodeBlob(RecAt(sec, INLINE_LEN, i), blobs)
  {
    seq(Count(sec, INLINE_LEN), i requires 0 <= i < Count(sec, INLINE_LEN) =>
      DecodeBlob(RecAt(sec, INLINE_LEN, i), blobs))
  }

  ghost function Xattrs(s: Sections): (xs: seq<RawXattr>)
    requires s.Addressable()
    ensures |xs| == Count(s.xattrs, XATTR_LEN)
    ensures forall i :: 0 <= i < |xs| ==> xs[i] == DecodeXattr(RecAt(s.xattrs, XATTR_LEN, i), s.names, s.BlobArena())
  {
    seq(Count(s.xattrs, XATTR_LEN), i requires 0 <= i < Count(s.xattrs, XATTR_LEN) =>
      DecodeXattr(RecAt(s.xattrs, XATTR_LEN, i), s.names, s.BlobArena()))
  }

  ghost function NestedRecs(s: Sections): (ns: seq<RawNested>)
    requires s.Addressable()
    ensures |ns| == Count(s.nested, NESTED_LEN)
    ensures forall i :: 0 <= i < |ns| ==> ns[i] == DecodeNested(RecAt(s.nested, NESTED_LEN, i), s.names, s.identities)
  {
    seq(Count(s.nested, NESTED_LEN), i requires 0 <= i < Count(s.nested, NESTED_LEN) =>
      DecodeNested(RecAt(s.nested, NESTED_LEN, i), s.names, s.identities))
  }

  /** A catalog as its readers see it. */
  datatype View = View(edges: seq<RawEdge>, nodes: seq<Node>, chunks: seq<Chunk>, inline: seq<RawBlob>,
                       symlinks: seq<RawBlob>, xattrs: seq<RawXattr>, nested: seq<RawNested>, blobsPresent: bool)

  ghost function ViewOf(s: Sections): View
    requires s.Addressable()
  {
    View(Edges(s), Nodes(s), Chunks(s), BlobRecs(s.inline, s.BlobArena()), BlobRecs(s.symlinks, s.BlobArena()),
         Xattrs(s), NestedRecs(s), s.blobs.Some?)
  }
}
