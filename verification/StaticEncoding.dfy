/**
  The bytes of a catalog as a function of its sorted records: interned arenas, record arrays that
  refer into them, and aligned sections behind a header and a table.
 */
module StaticEncoding {
  import opened Bytes
  import opened LittleEndian
  import opened Arena
  import opened CatalogRecords
  import opened StaticFormat

  const NAME_MAX := 0xffff

  function U32(n: nat): u32 {
    n % U32_RANGE
  }

  function U64(n: nat): u64 {
    n % U64_RANGE
  }

  // ---------- Strings, in the order the arenas meet them ----------

  ghost function EdgeNames(es: seq<Edge>): (s: seq<Bytes>)
    ensures |s| == |es| && forall i :: 0 <= i < |es| ==> s[i] == es[i].name
  {
    seq(|es|, i requires 0 <= i < |es| => es[i].name)
  }

  ghost function XattrNames(xs: seq<Xattr>): (s: seq<Bytes>)
    ensures |s| == |xs| && forall i :: 0 <= i < |xs| ==> s[i] == xs[i].name
  {
    seq(|xs|, i requires 0 <= i < |xs| => xs[i].name)
  }

  ghost function XattrValues(xs: seq<Xattr>): (s: seq<Bytes>)
    ensures |s| == |xs| && forall i :: 0 <= i < |xs| ==> s[i] == xs[i].value
  {
    seq(|xs|, i requires 0 <= i < |xs| => xs[i].value)
  }

  ghost function NestedNames(ns: seq<Nested>): (s: seq<Bytes>)
    ensures |s| == |ns| && forall i :: 0 <= i < |ns| ==> s[i] == ns[i].name
  {
    seq(|ns|, i requires 0 <= i < |ns| => ns[i].name)
  }

  ghost function NestedIdentities(ns: seq<Nested>): (s: seq<Bytes>)
    ensures |s| == |ns| && forall i :: 0 <= i < |ns| ==> s[i] == ns[i].identity
  {
    seq(|ns|, i requires 0 <= i < |ns| => ns[i].identity)
  }

  ghost function BlobData(bs: seq<BlobRec>): (s: seq<Bytes>)
    ensures |s| == |bs| && forall i :: 0 <= i < |bs| ==> s[i] == bs[i].data
  {
    seq(|bs|, i requires 0 <= i < |bs| => bs[i].data)
  }

  ghost function NameStrings(c: Catalog): seq<Bytes> {
    EdgeNames(c.edges) + XattrNames(c.xattrs) + NestedNames(c.nested)
  }

  ghost function MetaStrings(m: Meta): seq<Bytes> {
    [m.volumeUUID, m.coveredPath, m.identityAlgo]
  }

  ghost function BlobStrings(c: Catalog): seq<Bytes> {
    BlobData(c.inline) + BlobData(c.symlinks) + XattrValues(c.xattrs) + MetaStrings(c.meta)
  }

  ghost function Names(c: Catalog): Interned { Intern(NameStrings(c)) }

  ghost function Blobs(c: Catalog): Interned { Intern(BlobStrings(c)) }

  ghost function Identities(c: Catalog): Interned { Intern(NestedIdentities(c.nested)) }

  // ---------- When a catalog can be written at all ----------

  /** The position of the node for an inode; the last one, if there are several. */
  function NodeIndex(nodes: seq<Node>, inode: i64): (idx: Option<nat>)
    ensures idx.Some? ==> idx.value < |nodes| && nodes[idx.value].inode == inode
    ensures idx.None? ==> forall k :: 0 <= k < |nodes| ==> nodes[k].inode != inode
  {
    if nodes == [] then None
    else if nodes[|nodes| - 1].inode == inode then Some(|nodes| - 1)
    else NodeIndex(nodes[..|nodes| - 1], inode)
  }

  ghost predicate EdgeOk(e: Edge, nodes: seq<Node>) {
    |e.name| <= NAME_MAX && NodeIndex(nodes, e.inode).Some?
  }

  ghost predicate NodeOk(n: Node) {
    0 <= n.keyID < U32_RANGE
  }

  /** Finish's error conditions, none of them met. */
  ghost predicate Encodable(c: Catalog) {
    && (forall i :: 0 <= i < |c.edges| ==> EdgeOk(c.edges[i], c.nodes))
    && (forall i :: 0 <= i < |c.nodes| ==> NodeOk(c.nodes[i]))
    && (forall i :: 0 <= i < |c.xattrs| ==> |c.xattrs[i].name| <= NAME_MAX)
    && (forall i :: 0 <= i < |c.nested| ==> |c.nested[i].name| <= NAME_MAX)
    && |Names(c).buf| <= ARENA_MAX && |Blobs(c).buf| <= ARENA_MAX
  }

  // ---------- Records ----------

  ghost function EdgeRecord(e: Edge, nodes: seq<Node>, names: Interned): (r: Bytes)
    ensures |r| == EDGE_LEN
  {
    EdgeBytes(e, U32(OffsetOf(names, e.name)), U32(match NodeIndex(nodes, e.inode) case Some(k) => k case None => 0))
  }

  ghost function BlobRecord(b: BlobRec, blobs: Interned): (r: Bytes)
    ensures |r| == INLINE_LEN
  {
    BlobBytes(b.inode, U32(OffsetOf(blobs, b.data)), U32(|b.data|))
  }

  ghost function XattrRecord(x: Xattr, names: Interned, blobs: Interned): (r: Bytes)
    ensures |r| == XATTR_LEN
  {
    XattrBytes(x, U32(OffsetOf(names, x.name)), U32(OffsetOf(blobs, x.value)), U32(|x.value|))
  }

  ghost function NestedRecord(n: Nested, names: Interned, idents: Interned): (r: Bytes)
    ensures |r| == NESTED_LEN
  {
    NestedBytes(n, U32(OffsetOf(names, n.name)), U32(OffsetOf(idents, n.identity) / IDENTITY_LEN))
  }

  ghost function EdgeRecords(es: seq<Edge>, nodes: seq<Node>, names: Interned): (rs: seq<Bytes>)
    ensures |rs| == |es| && forall i :: 0 <= i < |es| ==> rs[i] == EdgeRecord(es[i], nodes, names)
  {
    seq(|es|, i requires 0 <= i < |es| => EdgeRecord(es[i], nodes, names))
  }

  ghost function NodeRecords(ns: seq<Node>): (rs: seq<Bytes>)
    ensures |rs| == |ns| && forall i :: 0 <= i < |ns| ==> rs[i] == NodeBytes(ns[i])
  {
    seq(|ns|, i requires 0 <= i < |ns| => NodeBytes(ns[i]))
  }

  ghost function ChunkRecords(cs: seq<Chunk>): (rs: seq<Bytes>)
    ensures |rs| == |cs| && forall i :: 0 <= i < |cs| ==> rs[i] == ChunkBytes(cs[i])
  {
    seq(|cs|, i requires 0 <= i < |cs| => ChunkBytes(cs[i]))
  }

  ghost function BlobRecords(bs: seq<BlobRec>, blobs: Interned): (rs: seq<Bytes>)
    ensures |rs| == |bs| && forall i :: 0 <= i < |bs| ==> rs[i] == BlobRecord(bs[i], blobs)
  {
    seq(|bs|, i requires 0 <= i < |bs| => BlobRecord(bs[i], blobs))
  }

  ghost function XattrRecords(xs: seq<Xattr>, names: Interned, blobs: Interned): (rs: seq<Bytes>)
    ensures |rs| == |xs| && forall i :: 0 <= i < |xs| ==> rs[i] == XattrRecord(xs[i], names, blobs)
  {
    seq(|xs|, i requires 0 <= i < |xs| => XattrRecord(xs[i], names, blobs))
  }

  ghost function NestedRecords(ns: seq<Nested>, names: Interned, idents: Interned): (rs: seq<Bytes>)
    ensures |rs| == |ns| && forall i :: 0 <= i < |ns| ==> rs[i] == NestedRecord(ns[i], names, idents)
  {
    seq(|ns|, i requires 0 <= i < |ns| => NestedRecord(ns[i], names, idents))
  }

  ghost function MetaRecord(m: Meta, blobs: Interned): (r: Bytes) {
    Pack(MetaFields(m, blobs))
  }

  ghost function MetaFields(m: Meta, blobs: Interned): seq<Field> {
    [Field(U32(OffsetOf(blobs, m.volumeUUID)), 4), Field(U32(|m.volumeUUID|), 4),
     Field(U32(OffsetOf(blobs, m.coveredPath)), 4), Field(U32(|m.coveredPath|), 4),
     Field(U32(OffsetOf(blobs, m.identityAlgo)), 4), Field(U32(|m.identityAlgo|), 4)]
  }

  // ---------- Sections ----------

  datatype Sec = Sec(id: u32, data: Bytes)

  /** Every section a catalog has, empty ones included, in the order they are laid out. */
  ghost function AllSections(c: Catalog): (secs: seq<Sec>)
    ensures |secs| == 11
  {
    [Sec(SEC_NAMES, Names(c).buf),
     Sec(SEC_EDGES, Flat(EdgeRecords(c.edges, c.nodes, Names(c)))),
     Sec(SEC_NODES, Flat(NodeRecords(c.nodes))),
     Sec(SEC_CHUNKS, Flat(ChunkRecords(c.chunks))),
     Sec(SEC_INLINE, Flat(BlobRecords(c.inline, Blobs(c)))),
     Sec(SEC_XATTRS, Flat(XattrRecords(c.xattrs, Names(c), Blobs(c)))),
     Sec(SEC_SYMLINKS, Flat(BlobRecords(c.symlinks, Blobs(c)))),
     Sec(SEC_NESTED, Flat(NestedRecords(c.nested, Names(c), Identities(c)))),
     Sec(SEC_IDENTITIES, Identities(c).buf),
     Sec(SEC_BLOBS, Blobs(c).buf),
     Sec(SEC_META, MetaRecord(c.meta, Blobs(c)))]
  }

  /** Empty sections are omitted: a reader treats absent and empty the same way. */
  function NonEmpty(secs: seq<Sec>): (r: seq<Sec>)
    ensures |r| <= |secs|
    ensures forall k :: 0 <= k < |r| ==> r[k].data != []
  {
    if secs == [] then []
    else
      var last := secs[|secs| - 1];
      NonEmpty(secs[..|secs| - 1]) + (if last.data == [] then [] else [last])
  }

  // ---------- Layout ----------

  function Align8(n: nat): (a: nat)
    ensures n <= a < n + 8 && a % 8 == 0
  {
    (n + 7) / 8 * 8
  }

  datatype Placed = Placed(id: u32, off: nat, data: Bytes)

  /** Where the sections end when they start at `from`. */
  function PlaceEnd(secs: seq<Sec>, from: nat): (end: nat)
    ensures end >= from
  {
    if secs == [] then from
    else Align8(PlaceEnd(secs[..|secs| - 1], from)) + |secs[|secs| - 1].data|
  }

  function Place(secs: seq<Sec>, from: nat): (placed: seq<Placed>)
    ensures |placed| == |secs|
  {
    if secs == [] then []
    else
      var last := secs[|secs| - 1];
      Place(secs[..|secs| - 1], from)
      + [Placed(last.id, Align8(PlaceEnd(secs[..|secs| - 1], from)), last.data)]
  }

  function Zeros(n: nat): (z: Bytes)
    ensures |z| == n
  {
    seq(n, _ => 0)
  }

  function BodyBytes(secs: seq<Sec>, from: nat): (b: Bytes)
    ensures |b| == PlaceEnd(secs, from) - from
  {
    if secs == [] then []
    else
      var end := PlaceEnd(secs[..|secs| - 1], from);
      BodyBytes(secs[..|secs| - 1], from) + Zeros(Align8(end) - end) + secs[|secs| - 1].data
  }

  function TableRecords(placed: seq<Placed>): (rs: seq<Bytes>)
    ensures |rs| == |placed| && Widths(rs, SECTION_ENTRY_LEN)
    ensures forall i :: 0 <= i < |placed| ==>
      rs[i] == EntryBytes(placed[i].id, U64(placed[i].off), U64(|placed[i].data|))
  {
    seq(|placed|, i requires 0 <= i < |placed| => EntryBytes(placed[i].id, U64(placed[i].off), U64(|placed[i].data|)))
  }

  function IdentityAlgoCode(algo: Bytes): u32 {
    if algo == Ascii("blake3-256") then 1
    else if algo == Ascii("blake3-256-keyed") then 2
    else 0
  }

  function HeaderOf(c: Catalog, sections: nat): Header {
    Header(FORMAT_MAJOR, FORMAT_MINOR, HEADER_LEN, sections % U16_RANGE,
           if |c.xattrs| > 0 then FLAG_ANY_XATTR else 0, ToU64(c.rootInode),
           U64(|c.edges|), U64(|c.nodes|), IdentityAlgoCode(c.meta.identityAlgo), c.inlineMax)
  }

  function TableEnd(secs: seq<Sec>): nat {
    HEADER_LEN + |secs| * SECTION_ENTRY_LEN
  }

  /** Header, table, then each section at its 8-byte boundary with zeros between. */
  function Assemble(h: Header, secs: seq<Sec>): (b: Bytes) {
    EncodeHeader(h) + Flat(TableRecords(Place(secs, TableEnd(secs)))) + BodyBytes(secs, TableEnd(secs))
  }

  /** What Finish writes for these records in this order. */
  ghost function Encode(c: Catalog): Bytes {
    var secs := NonEmpty(AllSections(c));
    Assemble(HeaderOf(c, |secs|), secs)
  }

  /**
    Canonical bytes: the same records with distinct keys, added in any order and sorted by any
    correct sort, encode to the same bytes.
   */
  lemma CanonicalBytes(added: Catalog, sorted: Catalog, added': Catalog, sorted': Catalog)
    requires added.DistinctKeys() && SameRecords(added, added')
    requires SameRecords(sorted, added) && sorted.Sorted()
    requires SameRecords(sorted', added') && sorted'.Sorted()
    ensures Encode(sorted) == Encode(sorted') && (Encodable(sorted) <==> Encodable(sorted'))
  {
    SortedCatalogsAgree(added, sorted, added', sorted');
  }
}
