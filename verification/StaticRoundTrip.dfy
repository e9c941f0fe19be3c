/**
  Writing and reading back.  A blob written from sorted records opens, and its records decode to
  the ones written; it passes the order check exactly when the keys the check looks at are
  distinct; and then every query answers from the records as a map would.
 */
module StaticRoundTrip {
  import opened Bytes
  import opened LittleEndian
  import opened Arena
  import opened CatalogRecords
  import opened StaticFormat
  import opened StaticEncoding
  import opened StaticWriter
  import opened StaticView
  import opened StaticLayout

  /** The most bytes Go's runtime will allocate for one slice; making a longer one panics. */
  const SLICE_MAX := 0x1_0000_0000_0000

  /** The record arrays are slices the writer makes. */
  ghost predicate Allocatable(c: Catalog) {
    && |c.edges| * EDGE_LEN <= SLICE_MAX && |c.nodes| * NODE_LEN <= SLICE_MAX && |c.chunks| * CHUNK_LEN <= SLICE_MAX
    && |c.inline| * INLINE_LEN <= SLICE_MAX && |c.xattrs| * XATTR_LEN <= SLICE_MAX
    && |c.symlinks| * SYMLINK_LEN <= SLICE_MAX && |c.nested| * NESTED_LEN <= SLICE_MAX
  }

  /** What Finish returns bytes for. */
  ghost predicate Writable(c: Catalog) {
    WellFormed(c) && Encodable(c) && Allocatable(c)
  }

  /** No more different identities than a 32-bit slot can name; the writer does not look. */
  ghost predicate IdentitiesReach(c: Catalog) {
    |Identities(c).buf| <= U32_RANGE * IDENTITY_LEN
  }

  // ---------- The blob is small enough ----------

  const SECTION_MAX := 2 * SLICE_MAX

  ghost predicate ShortSections(secs: seq<Sec>) {
    forall k :: 0 <= k < |secs| ==> |secs[k].data| <= SECTION_MAX
  }

  lemma {:induction false} NonEmptyShort(secs: seq<Sec>)
    requires ShortSections(secs)
    ensures ShortSections(NonEmpty(secs))
  {
    if secs != [] {
      NonEmptyShort(secs[..|secs| - 1]);
    }
  }

  lemma {:induction false} PlaceEndBound(secs: seq<Sec>, from: nat)
    requires ShortSections(secs)
    ensures PlaceEnd(secs, from) <= from + |secs| * (SECTION_MAX + 8)
  {
    if secs != [] {
      PlaceEndBound(secs[..|secs| - 1], from);
    }
  }

  lemma FlatShort(recs: seq<Bytes>, w: nat)
    requires Widths(recs, w) && |recs| * w <= SLICE_MAX
    ensures |Flat(recs)| <= SECTION_MAX
  {
    hide Flat, Widths;
    FlatLength(recs, w);
  }

  ghost predicate ShortParts(t: Sections) {
    && |t.names| <= SECTION_MAX && |t.BlobArena()| <= SECTION_MAX && |t.edges| <= SECTION_MAX
    && |t.nodes| <= SECTION_MAX && |t.chunks| <= SECTION_MAX && |t.inline| <= SECTION_MAX
    && |t.xattrs| <= SECTION_MAX && |t.symlinks| <= SECTION_MAX && |t.nested| <= SECTION_MAX
    && |t.identities| <= SECTION_MAX && (t.metaRaw.Some? ==> |t.metaRaw.value| <= SECTION_MAX)
  }

  lemma KindsShort(all: seq<Sec>, t: Sections)
    requires AllKinds(all, t) && ShortParts(t)
    ensures ShortSections(all)
  {
  }

  lemma TreeShort(c: Catalog)
    requires Writable(c)
    ensures |SectionsOf(c).edges| <= SECTION_MAX && |SectionsOf(c).nodes| <= SECTION_MAX
    ensures |SectionsOf(c).chunks| <= SECTION_MAX && |SectionsOf(c).inline| <= SECTION_MAX
  {
    hide Flat, EdgeRecord, NodeBytes, ChunkBytes, BlobRecord, Intern;
    FlatShort(EdgeRecords(c.edges, c.nodes, Names(c)), EDGE_LEN);
    FlatShort(NodeRecords(c.nodes), NODE_LEN);
    FlatShort(ChunkRecords(c.chunks), CHUNK_LEN);
    FlatShort(BlobRecords(c.inline, Blobs(c)), INLINE_LEN);
  }

  lemma ExtrasShort(c: Catalog)
    requires Writable(c)
    ensures |SectionsOf(c).xattrs| <= SECTION_MAX && |SectionsOf(c).symlinks| <= SECTION_MAX
    ensures |SectionsOf(c).nested| <= SECTION_MAX && |SectionsOf(c).identities| <= SECTION_MAX
  {
    hide Flat, BlobRecord, XattrRecord, NestedRecord, Intern;
    FlatShort(XattrRecords(c.xattrs, Names(c), Blobs(c)), XATTR_LEN);
    FlatShort(BlobRecords(c.symlinks, Blobs(c)), SYMLINK_LEN);
    FlatShort(NestedRecords(c.nested, Names(c), Identities(c)), NESTED_LEN);
    InternWhole(NestedIdentities(c.nested));
  }

  lemma SectionsShort(c: Catalog)
    requires Writable(c)
    ensures ShortSections(AllSections(c))
  {
    hide Flat, Intern, Encodable, ShortSections, MetaRecord;
    SectionsShaped(c);
    TreeShort(c);
    ExtrasShort(c);
    ArenasAddressable(c);
    KindsShort(AllSections(c), SectionsOf(c));
  }

  // ---------- Opening ----------

  /** The six words of the metadata record. */
  lemma MetaWords(m: Meta, blobs: Interned)
    ensures var raw := MetaRecord(m, blobs);
      && |raw| == META_LEN
      && U32At(raw, 0) == U32(OffsetOf(blobs, m.volumeUUID)) && U32At(raw, 4) == U32(|m.volumeUUID|)
      && U32At(raw, 8) == U32(OffsetOf(blobs, m.coveredPath)) && U32At(raw, 12) == U32(|m.coveredPath|)
      && U32At(raw, 16) == U32(OffsetOf(blobs, m.identityAlgo)) && U32At(raw, 20) == U32(|m.identityAlgo|)
  {
    hide Pack, UnLe, OffsetOf, Range;
    var fs := MetaFields(m, blobs);
    MetaStarts(m, blobs);
    Ranges();
    PackField(fs, 0);
    PackField(fs, 1);
    PackField(fs, 2);
    PackField(fs, 3);
    PackField(fs, 4);
    PackField(fs, 5);
  }

  lemma MetaSlices(c: Catalog)
    requires |Blobs(c).buf| <= ARENA_MAX
    ensures var m, blobs := c.meta, Blobs(c);
      && Slice(blobs.buf, U32(OffsetOf(blobs, m.volumeUUID)), U32(|m.volumeUUID|)) == Some(m.volumeUUID)
      && Slice(blobs.buf, U32(OffsetOf(blobs, m.coveredPath)), U32(|m.coveredPath|)) == Some(m.coveredPath)
      && Slice(blobs.buf, U32(OffsetOf(blobs, m.identityAlgo)), U32(|m.identityAlgo|)) == Some(m.identityAlgo)
  {
    hide Intern, Slice, OffsetOf;
    var all := BlobStrings(c);
    var n := |all| - 3;
    assert all[n] == c.meta.volumeUUID && all[n + 1] == c.meta.coveredPath && all[n + 2] == c.meta.identityAlgo;
    ArenaSlice(all, n);
    ArenaSlice(all, n + 1);
    ArenaSlice(all, n + 2);
  }

  lemma MetaLoads(c: Catalog)
    requires Writable(c) && SectionsOf(c).Usable()
    ensures LoadMeta(SectionsOf(c)) == Some(c.meta)
  {
    hide Flat, Intern, OffsetOf, MetaRecord, Slice, U32At;
    MetaWords(c.meta, Blobs(c));
    MetaSlices(c);
    assert SectionsOf(c).BlobArena() == Blobs(c).buf;
  }

  /** The recorded offset and length of an interned string slice it back out. */
  lemma ArenaSlice(all: seq<Bytes>, k: nat)
    requires k < |all| && |Intern(all).buf| <= ARENA_MAX
    ensures Slice(Intern(all).buf, U32(OffsetOf(Intern(all), all[k])), U32(|all[k]|)) == Some(all[k])
  {
    hide Intern;
    InternSound(all);
    assert Holds(Intern(all), all[k]);
    if all[k] == [] {
      assert [] !in Intern(all).at;
    }
  }

  lemma ArenasAddressable(c: Catalog)
    requires Writable(c)
    ensures SectionsOf(c).Usable()
  {
    SectionsShaped(c);
  }

  /** The steps of opening, taken together. */
  lemma ParsesFrom(buf: Bytes, h: Header, secs: seq<Sec>, s: Sections, m: Meta)
    requires DecodeHeader(buf) == Ok(h) && h.headerLen + h.sectionCount * SECTION_ENTRY_LEN <= |buf|
    requires ReadTable(buf, h.headerLen, h.sectionCount) == Some(secs) && AttachAll(secs) == Some(s)
    requires s.Usable() && LoadMeta(s) == Some(m)
    ensures ArenasFit(buf) && Parse(buf) == Ok(Parsed(h, s, m))
  {
  }

  lemma EncodedLength(c: Catalog)
    requires Writable(c)
    ensures |Encode(c)| < U64_RANGE && |NonEmpty(AllSections(c))| <= 11
  {
    hide AllSections, Flat, Encodable, EncodeHeader, Assemble, NonEmpty, ShortSections, Place, PlaceEnd, BodyBytes;
    var secs := NonEmpty(AllSections(c));
    SectionsShort(c);
    NonEmptyShort(AllSections(c));
    ElevenSections(c);
    PlaceEndBound(secs, TableEnd(secs));
    AssembleParts(HeaderOf(c, |secs|), secs);
  }

  lemma ElevenSections(c: Catalog)
    ensures |AllSections(c)| == 11
  {
  }

  lemma HeaderReads(c: Catalog)
    requires Writable(c)
    ensures DecodeHeader(Encode(c)) == Ok(HeaderOf(c, |NonEmpty(AllSections(c))|))
  {
    hide AllSections, Flat, Encodable, EncodeHeader, DecodeHeader, Assemble, NonEmpty, Place, PlaceEnd, BodyBytes;
    var secs := NonEmpty(AllSections(c));
    var h := HeaderOf(c, |secs|);
    EncodedLength(c);
    AssembleParts(h, secs);
    HeaderRoundTrip(h, Flat(TableRecords(Place(secs, TableEnd(secs)))) + BodyBytes(secs, TableEnd(secs)));
  }

  /** What was written opens, with the header, sections and metadata that went in. */
  lemma EncodedParses(c: Catalog)
    requires Writable(c)
    ensures ArenasFit(Encode(c))
    ensures Parse(Encode(c)) == Ok(Parsed(HeaderOf(c, |NonEmpty(AllSections(c))|), SectionsOf(c), c.meta))
  {
    hide AllSections, SectionsOf, Encodable, DecodeHeader, ReadTable, AttachAll, Assemble, NonEmpty, LoadMeta, ArenasFit,
         Parse;
    var secs := NonEmpty(AllSections(c));
    var h := HeaderOf(c, |secs|);
    EncodedLength(c);
    HeaderReads(c);
    TableFound(h, secs, |secs|);
    assert secs[..|secs|] == secs;
    ArenasAddressable(c);
    AllAttached(c);
    MetaLoads(c);
    ParsesFrom(Encode(c), h, secs, SectionsOf(c), c.meta);
  }

  // ---------- Records ----------

  ghost function NodeSlot(nodes: seq<Node>, inode: i64): u32 {
    U32(match NodeIndex(nodes, inode) case Some(k) => k case None => 0)
  }

  /** The view a reader has of a catalog that was written from c. */
  ghost predicate Shows(v: View, c: Catalog) {
    && |v.edges| == |c.edges| && |v.chunks| == |c.chunks| && |v.inline| == |c.inline|
    && |v.symlinks| == |c.symlinks| && |v.xattrs| == |c.xattrs| && |v.nested| == |c.nested|
    && (forall i :: 0 <= i < |c.edges| ==> v.edges[i] == EdgeShown(c.edges[i], c.nodes))
    && v.nodes == c.nodes && v.chunks == c.chunks
    && (forall i :: 0 <= i < |c.inline| ==> v.inline[i] == BlobShown(c.inline[i]))
    && (forall i :: 0 <= i < |c.symlinks| ==> v.symlinks[i] == BlobShown(c.symlinks[i]))
    && (forall i :: 0 <= i < |c.xattrs| ==> v.xattrs[i] == XattrShown(c.xattrs[i]))
    && (forall i :: 0 <= i < |c.nested| ==> NestedShown(v.nested[i], c.nested[i]))
    && v.blobsPresent == (Blobs(c).buf != [])
  }

  ghost function EdgeShown(e: Edge, nodes: seq<Node>): RawEdge {
    RawEdge(e.parent, e.inode, Some(e.name), e.typ, NodeSlot(nodes, e.inode))
  }

  ghost function BlobShown(b: BlobRec): RawBlob {
    RawBlob(b.inode, Some(b.data))
  }

  ghost function XattrShown(x: Xattr): RawXattr {
    RawXattr(x.inode, Some(x.name), Some(x.value))
  }

  /** Which slot an identity got is the writer's business; what it holds is not. */
  ghost predicate NestedShown(r: RawNested, n: Nested) {
    r.parent == n.parent && r.name == Some(n.name) && r.identity == Some(n.identity)
  }

  /** Record i of an array written record by record. */
  lemma RecFound(recs: seq<Bytes>, w: nat, i: nat)
    requires w > 0 && Widths(recs, w) && i < |recs|
    ensures Count(Flat(recs), w) == |recs| && RecAt(Flat(recs), w, i) == recs[i]
  {
    hide Flat;
    WholeFlat(recs, w);
    FlatRec(recs, w, i);
  }

  lemma EdgeReads(e: Edge, nodes: seq<Node>, names: seq<Bytes>, k: nat)
    requires k < |names| && names[k] == e.name && |Intern(names).buf| <= ARENA_MAX && |e.name| <= NAME_MAX
    ensures DecodeEdge(EdgeRecord(e, nodes, Intern(names)), Intern(names).buf) == EdgeShown(e, nodes)
  {
    hide Intern, EdgeBytes, OffsetOf, Slice, I64At, U32At, U16At, U8At;
    EdgeRoundTrip(e, U32(OffsetOf(Intern(names), e.name)), NodeSlot(nodes, e.inode));
    ArenaSlice(names, k);
  }

  lemma EdgesShown(c: Catalog, i: nat)
    requires Writable(c) && SectionsOf(c).Usable() && i < |c.edges|
    ensures |Edges(SectionsOf(c))| == |c.edges| && Edges(SectionsOf(c))[i] == EdgeShown(c.edges[i], c.nodes)
  {
    hide Flat, Intern, EdgeRecord, DecodeEdge, EdgeShown;
    RecFound(EdgeRecords(c.edges, c.nodes, Names(c)), EDGE_LEN, i);
    assert EdgeOk(c.edges[i], c.nodes);
    assert NameStrings(c)[i] == c.edges[i].name;
    EdgeReads(c.edges[i], c.nodes, NameStrings(c), i);
  }

  lemma NodesShown(c: Catalog, i: nat)
    requires Writable(c) && i < |c.nodes|
    ensures |Nodes(SectionsOf(c))| == |c.nodes| && Nodes(SectionsOf(c))[i] == c.nodes[i]
  {
    hide Flat, Intern, NodeBytes, DecodeNode;
    RecFound(NodeRecords(c.nodes), NODE_LEN, i);
    assert NodeOk(c.nodes[i]);
    NodeRoundTrip(c.nodes[i]);
  }

  lemma ChunksShown(c: Catalog, i: nat)
    requires Writable(c) && i < |c.chunks|
    ensures |Chunks(SectionsOf(c))| == |c.chunks| && Chunks(SectionsOf(c))[i] == c.chunks[i]
  {
    hide Flat, Intern, ChunkBytes;
    RecFound(ChunkRecords(c.chunks), CHUNK_LEN, i);
    ChunkRoundTrip(c.chunks[i]);
  }

  lemma BlobsShown(bs: seq<BlobRec>, all: seq<Bytes>, start: nat, i: nat)
    requires |Intern(all).buf| <= ARENA_MAX && i < |bs|
    requires start + |bs| <= |all| && forall k :: 0 <= k < |bs| ==> all[start + k] == bs[k].data
    ensures var sec := Flat(BlobRecords(bs, Intern(all)));
      && |BlobRecs(sec, Intern(all).buf)| == |bs| && BlobRecs(sec, Intern(all).buf)[i] == BlobShown(bs[i])
  {
    hide Flat, Intern, BlobBytes;
    RecFound(BlobRecords(bs, Intern(all)), INLINE_LEN, i);
    var b := bs[i];
    BlobRoundTrip(b.inode, U32(OffsetOf(Intern(all), b.data)), U32(|b.data|));
    assert all[start + i] == b.data;
    ArenaSlice(all, start + i);
  }

  lemma XattrReads(x: Xattr, names: Interned, blobs: Interned)
    requires |names.buf| <= ARENA_MAX && |blobs.buf| <= ARENA_MAX && |x.name| <= NAME_MAX
    requires Slice(names.buf, U32(OffsetOf(names, x.name)), |x.name|) == Some(x.name)
    requires Slice(blobs.buf, U32(OffsetOf(blobs, x.value)), U32(|x.value|)) == Some(x.value)
    ensures DecodeXattr(XattrRecord(x, names, blobs), names.buf, blobs.buf) == XattrShown(x)
  {
    hide XattrBytes, OffsetOf, Slice, I64At, U32At, U16At;
    XattrRoundTrip(x, U32(OffsetOf(names, x.name)), U32(OffsetOf(blobs, x.value)), U32(|x.value|));
  }

  lemma XattrsShown(c: Catalog, i: nat)
    requires Writable(c) && SectionsOf(c).Usable() && i < |c.xattrs|
    ensures |Xattrs(SectionsOf(c))| == |c.xattrs| && Xattrs(SectionsOf(c))[i] == XattrShown(c.xattrs[i])
  {
    hide Flat, Intern, XattrRecord, DecodeXattr, XattrShown, Slice, OffsetOf;
    RecFound(XattrRecords(c.xattrs, Names(c), Blobs(c)), XATTR_LEN, i);
    var k, j := |c.edges| + i, |c.inline| + |c.symlinks| + i;
    assert NameStrings(c)[k] == c.xattrs[i].name;
    assert BlobStrings(c)[j] == c.xattrs[i].value;
    assert SectionsOf(c).BlobArena() == Blobs(c).buf;
    ArenaSlice(NameStrings(c), k);
    ArenaSlice(BlobStrings(c), j);
    XattrReads(c.xattrs[i], Names(c), Blobs(c));
  }

  /** An identity's slot leads back to it. */
  lemma IdentityFound(ids: seq<Bytes>, i: nat)
    requires forall k :: 0 <= k < |ids| ==> |ids[k]| == IDENTITY_LEN
    requires i < |ids| && |Intern(ids).buf| <= U32_RANGE * IDENTITY_LEN
    ensures IdentityAt(Intern(ids).buf, U32(OffsetOf(Intern(ids), ids[i]) / IDENTITY_LEN)) == Some(ids[i])
  {
    hide Intern;
    InternWhole(ids);
    InternSound(ids);
    assert Holds(Intern(ids), ids[i]);
    var off := OffsetOf(Intern(ids), ids[i]);
    assert off / IDENTITY_LEN * IDENTITY_LEN == off;
  }

  lemma SlotWraps(off: nat)
    requires off % IDENTITY_LEN == 0
    ensures U32(off / IDENTITY_LEN) * IDENTITY_LEN == off <==> off < U32_RANGE * IDENTITY_LEN
    ensures U32(off / IDENTITY_LEN) * IDENTITY_LEN <= off
  {
    var p := off / IDENTITY_LEN;
    assert p * IDENTITY_LEN == off && p % U32_RANGE <= p;
  }

  /** Past that many the slot wraps around, to another identity's. */
  lemma IdentityFoundExactly(ids: seq<Bytes>, i: nat)
    requires forall k :: 0 <= k < |ids| ==> |ids[k]| == IDENTITY_LEN
    requires i < |ids|
    ensures IdentityAt(Intern(ids).buf, U32(OffsetOf(Intern(ids), ids[i]) / IDENTITY_LEN)) == Some(ids[i]) <==>
            OffsetOf(Intern(ids), ids[i]) < U32_RANGE * IDENTITY_LEN
  {
    hide Intern, U32, StoredOnce, IdentityAt;
    var a := Intern(ids);
    InternWhole(ids);
    InternSound(ids);
    InternOnce(ids);
    assert Holds(a, ids[i]);
    var off := OffsetOf(a, ids[i]);
    SlotWraps(off);
    SlotHolds(a, ids[i], U32(off / IDENTITY_LEN));
  }

  /** A slot holds an identity exactly when it is the one recorded for it. */
  lemma SlotHolds(a: Interned, id: Bytes, slot: u32)
    requires StoredOnce(a) && |id| == IDENTITY_LEN && id in a.at && Holds(a, id) && slot * IDENTITY_LEN <= a.at[id]
    ensures IdentityAt(a.buf, slot) == Some(id) <==> slot * IDENTITY_LEN == a.at[id]
  {
    assert Cell(a, slot) != [] ==> a.at[Cell(a, slot)] == slot * IDENTITY_LEN;
  }

  /** What the 32 bits kept of an identity's slot lead to. */
  ghost function ReadBack(ids: seq<Bytes>, id: Bytes): Bytes {
    match IdentityAt(Intern(ids).buf, U32(OffsetOf(Intern(ids), id) / IDENTITY_LEN))
    case Some(found) => found
    case None => []
  }

  ghost function NamedLocators(ns: seq<Nested>): (ms: seq<Nested>)
    ensures |ms| == |ns|
    ensures forall i :: 0 <= i < |ns| ==> ms[i] == ns[i].(identity := ReadBack(NestedIdentities(ns), ns[i].identity))
  {
    seq(|ns|, i requires 0 <= i < |ns| => ns[i].(identity := ReadBack(NestedIdentities(ns), ns[i].identity)))
  }

  /** The catalog with its locators as their slots name them. */
  ghost function AsNamed(c: Catalog): Catalog {
    c.(nested := NamedLocators(c.nested))
  }

  /** Which is the catalog itself exactly when the slots could name all its identities. */
  lemma NamedExactly(c: Catalog)
    requires WellFormed(c)
    ensures AsNamed(c) == c <==> IdentitiesReach(c)
  {
    hide Intern, NamedLocators, IdentityAt, U32;
    var ids := NestedIdentities(c.nested);
    assert Identities(c) == Intern(ids);
    if IdentitiesReach(c) {
      forall i | 0 <= i < |ids|
        ensures NamedLocators(c.nested)[i] == c.nested[i]
      {
        IdentityFound(ids, i);
      }
    } else {
      var i := IdentityPast(ids);
      IdentityFoundExactly(ids, i);
      assert c.nested[i].identity == ids[i];
      assert NamedLocators(c.nested)[i] != c.nested[i];
    }
  }

  /** One of more than 2^32 identities is kept past the first 2^32. */
  lemma IdentityPast(ids: seq<Bytes>) returns (i: nat)
    requires forall k :: 0 <= k < |ids| ==> |ids[k]| == IDENTITY_LEN
    requires |Intern(ids).buf| > U32_RANGE * IDENTITY_LEN
    ensures i < |ids| && OffsetOf(Intern(ids), ids[i]) == U32_RANGE * IDENTITY_LEN
  {
    hide Intern;
    var a := Intern(ids);
    InternWhole(ids);
    InternOnce(ids);
    var id := Cell(a, U32_RANGE);
    assert id != [];
    InternKeys(ids, id);
    i :| 0 <= i < |ids| && ids[i] == id;
  }

  lemma SlotReads(ids: seq<Bytes>, j: nat)
    requires forall k :: 0 <= k < |ids| ==> |ids[k]| == IDENTITY_LEN
    requires j < |ids|
    ensures IdentityAt(Intern(ids).buf, U32(OffsetOf(Intern(ids), ids[j]) / IDENTITY_LEN)) == Some(ReadBack(ids, ids[j]))
  {
    hide Intern, U32;
    InternWhole(ids);
    InternSound(ids);
    assert Holds(Intern(ids), ids[j]);
    SlotWraps(OffsetOf(Intern(ids), ids[j]));
  }

  lemma NestedReads(n: Nested, names: seq<Bytes>, k: nat, ids: seq<Bytes>, j: nat)
    requires k < |names| && names[k] == n.name && |Intern(names).buf| <= ARENA_MAX && |n.name| <= NAME_MAX
    requires forall i :: 0 <= i < |ids| ==> |ids[i]| == IDENTITY_LEN
    requires j < |ids| && ids[j] == n.identity
    ensures NestedShown(DecodeNested(NestedRecord(n, Intern(names), Intern(ids)), Intern(names).buf, Intern(ids).buf),
                        n.(identity := ReadBack(ids, n.identity)))
  {
    hide Intern, NestedBytes, OffsetOf, Slice, I64At, U32At, U16At, IdentityAt, ReadBack;
    NestedRoundTrip(n, U32(OffsetOf(Intern(names), n.name)), U32(OffsetOf(Intern(ids), n.identity) / IDENTITY_LEN));
    ArenaSlice(names, k);
    SlotReads(ids, j);
  }

  lemma NestedsShown(c: Catalog, i: nat)
    requires Writable(c) && SectionsOf(c).Usable() && i < |c.nested|
    ensures |NestedRecs(SectionsOf(c))| == |c.nested| && NestedShown(NestedRecs(SectionsOf(c))[i], AsNamed(c).nested[i])
  {
    hide Flat, Intern, NestedRecord, DecodeNested, NestedShown, ReadBack, NamedLocators;
    var ids := NestedIdentities(c.nested);
    RecFound(NestedRecords(c.nested, Names(c), Identities(c)), NESTED_LEN, i);
    var k := |c.edges| + |c.xattrs| + i;
    assert NameStrings(c)[k] == c.nested[i].name;
    NestedReads(c.nested[i], NameStrings(c), k, ids, i);
  }

  lemma CountsShown(c: Catalog)
    requires Writable(c) && SectionsOf(c).Usable()
    ensures var s := SectionsOf(c);
      && |Edges(s)| == |c.edges| && |Nodes(s)| == |c.nodes| && |Chunks(s)| == |c.chunks|
      && |BlobRecs(s.inline, s.BlobArena())| == |c.inline| && |BlobRecs(s.symlinks, s.BlobArena())| == |c.symlinks|
      && |Xattrs(s)| == |c.xattrs| && |NestedRecs(s)| == |c.nested|
  {
    hide Flat, Intern, EdgeRecord, NodeBytes, ChunkBytes, BlobRecord, XattrRecord, NestedRecord;
    WholeFlat(EdgeRecords(c.edges, c.nodes, Names(c)), EDGE_LEN);
    WholeFlat(NodeRecords(c.nodes), NODE_LEN);
    WholeFlat(ChunkRecords(c.chunks), CHUNK_LEN);
    WholeFlat(BlobRecords(c.inline, Blobs(c)), INLINE_LEN);
    WholeFlat(XattrRecords(c.xattrs, Names(c), Blobs(c)), XATTR_LEN);
    WholeFlat(BlobRecords(c.symlinks, Blobs(c)), SYMLINK_LEN);
    WholeFlat(NestedRecords(c.nested, Names(c), Identities(c)), NESTED_LEN);
  }

  /** Every record reads back as it was written, a locator with the identity its slot names. */
  lemma EncodedShows(c: Catalog)
    requires Writable(c)
    ensures SectionsOf(c).Usable() && Shows(ViewOf(SectionsOf(c)), AsNamed(c)) && (AsNamed(c) == c <==> IdentitiesReach(c))
  {
    hide Flat, Intern, Encodable, EdgeShown, BlobShown, XattrShown, NestedShown, SectionsOf, NamedLocators, IdentitiesReach;
    NamedExactly(c);
    ArenasAddressable(c);
    CountsShown(c);
    var s := SectionsOf(c);
    forall i | 0 <= i < |c.edges|
      ensures Edges(s)[i] == EdgeShown(c.edges[i], c.nodes)
    {
      EdgesShown(c, i);
    }
    forall i | 0 <= i < |c.nodes|
      ensures Nodes(s)[i] == c.nodes[i]
    {
      NodesShown(c, i);
    }
    forall i | 0 <= i < |c.chunks|
      ensures Chunks(s)[i] == c.chunks[i]
    {
      ChunksShown(c, i);
    }
    BlobSectionsShown(c);
    forall i | 0 <= i < |c.xattrs|
      ensures Xattrs(s)[i] == XattrShown(c.xattrs[i])
    {
      XattrsShown(c, i);
    }
    forall i | 0 <= i < |c.nested|
      ensures NestedShown(NestedRecs(s)[i], AsNamed(c).nested[i])
    {
      NestedsShown(c, i);
    }
  }

  lemma BlobSectionsShown(c: Catalog)
    requires Writable(c) && SectionsOf(c).Usable()
    ensures var s := SectionsOf(c);
      && |BlobRecs(s.inline, s.BlobArena())| == |c.inline| && |BlobRecs(s.symlinks, s.BlobArena())| == |c.symlinks|
      && s.blobs.Some? == (Blobs(c).buf != [])
      && (forall i :: 0 <= i < |c.inline| ==> BlobRecs(s.inline, s.BlobArena())[i] == BlobShown(c.inline[i]))
      && (forall i :: 0 <= i < |c.symlinks| ==> BlobRecs(s.symlinks, s.BlobArena())[i] == BlobShown(c.symlinks[i]))
  {
    hide Flat, Intern, BlobShown;
    var s, all := SectionsOf(c), BlobStrings(c);
    CountsShown(c);
    assert s.BlobArena() == Intern(all).buf;
    forall i | 0 <= i < |c.inline|
      ensures BlobRecs(s.inline, s.BlobArena())[i] == BlobShown(c.inline[i])
    {
      BlobsShown(c.inline, all, 0, i);
    }
    forall i | 0 <= i < |c.symlinks|
      ensures BlobRecs(s.symlinks, s.BlobArena())[i] == BlobShown(c.symlinks[i])
    {
      BlobsShown(c.symlinks, all, |c.inline|, i);
    }
  }
}
