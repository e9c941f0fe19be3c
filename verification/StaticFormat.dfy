/** The static catalog format: header, section table entries and fixed-width records. */
module StaticFormat {
  import opened Bytes
  import opened LittleEndian
  import opened CatalogRecords

  function Ascii(s: string): (b: Bytes)
    requires forall k :: 0 <= k < |s| ==> s[k] < 128 as char
    ensures |b| == |s|
  {
    seq(|s|, k requires 0 <= k < |s| => s[k] as int as byte)
  }

  const MAGIC: Bytes := [80, 69, 76, 70, 83, 67, 65, 84] // "PELFSCAT"
  const FORMAT_MAJOR: u16 := 1
  const FORMAT_MINOR: u16 := 0
  const HEADER_LEN: u16 := 64
  const SECTION_ENTRY_LEN := 24
  const MAX_SECTIONS := 64

  const SEC_NAMES: u32 := 1
  const SEC_EDGES: u32 := 2
  const SEC_NODES: u32 := 3
  const SEC_CHUNKS: u32 := 4
  const SEC_INLINE: u32 := 5
  const SEC_XATTRS: u32 := 6
  const SEC_SYMLINKS: u32 := 7
  const SEC_NESTED: u32 := 8
  const SEC_IDENTITIES: u32 := 9
  const SEC_BLOBS: u32 := 10
  const SEC_META: u32 := 11

  const EDGE_LEN := 32
  const NODE_LEN := 64
  const CHUNK_LEN := 64
  const INLINE_LEN := 16
  const XATTR_LEN := 24
  const SYMLINK_LEN := 16
  const NESTED_LEN := 24
  const META_LEN := 24

  const FLAG_ANY_XATTR := 1

  // ---------- Header ----------

  datatype Header = Header(major: u16, minor: u16, headerLen: u16, sectionCount: u16, flags: u64,
                           rootInode: u64, entryCount: u64, nodeCount: u64, identityAlgo: u32, inlineMax: u32)

  datatype OpenError = Corrupt | FormatVersion

  function HeaderFields(h: Header): seq<Field> {
    [Field(h.major, 2), Field(h.minor, 2), Field(h.headerLen, 2), Field(h.sectionCount, 2),
     Field(h.flags, 8), Field(h.rootInode, 8), Field(h.entryCount, 8), Field(h.nodeCount, 8),
     Field(h.identityAlgo, 4), Field(h.inlineMax, 4), Field(0, 8)]
  }

  /** The fixed 64-byte prefix; the reserved tail is zero. */
  function EncodeHeader(h: Header): (b: Bytes)
    ensures |b| == HEADER_LEN
  {
    HeaderStarts(h);
    MAGIC + Pack(HeaderFields(h))
  }

  lemma HeaderStarts(h: Header)
    ensures var fs := HeaderFields(h);
      && Start(fs, 0) == 0 && Start(fs, 1) == 2 && Start(fs, 2) == 4 && Start(fs, 3) == 6 && Start(fs, 4) == 8 && Start(fs, 5) == 16
      && Start(fs, 6) == 24 && Start(fs, 7) == 32 && Start(fs, 8) == 40 && Start(fs, 9) == 44
      && Start(fs, 10) == 48 && Start(fs, 11) == 56
  {
  }

  function DecodeHeader(b: Bytes): Result<Header, OpenError> {
    if |b| < HEADER_LEN then Err(Corrupt)
    else if b[..8] != MAGIC then Err(Corrupt)
    else
      var h := Header(U16At(b, 8), U16At(b, 10), U16At(b, 12), U16At(b, 14), U64At(b, 16), U64At(b, 24),
                      U64At(b, 32), U64At(b, 40), U32At(b, 48), U32At(b, 52));
      if h.major != FORMAT_MAJOR then Err(FormatVersion)
      else if h.headerLen < HEADER_LEN || h.headerLen > |b| then Err(Corrupt)
      else if h.sectionCount > MAX_SECTIONS then Err(Corrupt)
      else Ok(h)
  }

  /** A packed field, read where it lies inside a larger byte string. */
  lemma FieldInside(b: Bytes, base: nat, fs: seq<Field>, k: nat)
    requires Fits(fs) && k < |fs| && base + |Pack(fs)| <= |b| && b[base..base + |Pack(fs)|] == Pack(fs)
    ensures base + Start(fs, k) + fs[k].width <= |b|
    ensures UnLe(b[base + Start(fs, k)..base + Start(fs, k) + fs[k].width]) == fs[k].value
  {
    hide Pack, UnLe, Le, Start, Range;
    PackField(fs, k);
    SliceOfSlice(b, base, base + |Pack(fs)|, Start(fs, k), Start(fs, k) + fs[k].width);
  }

  lemma SliceOfSlice(b: Bytes, from: nat, to: nat, i: nat, j: nat)
    requires from <= to <= |b| && i <= j <= to - from
    ensures b[from..to][i..j] == b[from + i..from + j]
  {
    var x, y := b[from..to][i..j], b[from + i..from + j];
    forall k | 0 <= k < j - i
      ensures x[k] == y[k]
    {
      assert x[k] == b[from..to][i + k] == b[from + (i + k)];
    }
  }

  /** Where a header keeps what: "PELFSCAT" first. */
  ghost predicate HeaderAt(b: Bytes, h: Header) {
    && |b| >= 64 && b[..8] == [80, 69, 76, 70, 83, 67, 65, 84]
    && U16At(b, 8) == h.major && U16At(b, 10) == h.minor && U16At(b, 12) == h.headerLen && U16At(b, 14) == h.sectionCount
    && U64At(b, 16) == h.flags && U64At(b, 24) == h.rootInode && U64At(b, 32) == h.entryCount && U64At(b, 40) == h.nodeCount
    && U32At(b, 48) == h.identityAlgo && U32At(b, 52) == h.inlineMax && U64At(b, 56) == 0
  }

  lemma HeaderLies(h: Header, rest: Bytes)
    ensures HeaderAt(EncodeHeader(h) + rest, h)
  {
    hide Pack, UnLe, Start;
    var b, fs := EncodeHeader(h) + rest, HeaderFields(h);
    HeaderStarts(h);
    Ranges();
    assert b[..8] == MAGIC;
    assert b[8..64] == Pack(fs);
    FieldInside(b, 8, fs, 0);
    FieldInside(b, 8, fs, 1);
    FieldInside(b, 8, fs, 2);
    FieldInside(b, 8, fs, 3);
    FieldInside(b, 8, fs, 4);
    FieldInside(b, 8, fs, 5);
    FieldInside(b, 8, fs, 6);
    FieldInside(b, 8, fs, 7);
    FieldInside(b, 8, fs, 8);
    FieldInside(b, 8, fs, 9);
    FieldInside(b, 8, fs, 10);
  }

  /** Exactly which headers survive being written and read back, in front of anything. */
  lemma HeaderRoundTrip(h: Header, rest: Bytes)
    requires h.major == FORMAT_MAJOR && h.sectionCount <= MAX_SECTIONS
    requires HEADER_LEN <= h.headerLen <= |EncodeHeader(h) + rest|
    ensures DecodeHeader(EncodeHeader(h) + rest) == Ok(h)
  {
    hide EncodeHeader, U16At, U32At, U64At;
    HeaderLies(h, rest);
  }

  // ---------- Records ----------

  function EdgeFields(e: Edge, off: u32, idx: u32): seq<Field> {
    [Field(ToU64(e.parent), 8), Field(ToU64(e.inode), 8), Field(off, 4), Field(|e.name| % U16_RANGE, 2),
     Field(e.typ, 1), Field(0, 1), Field(idx, 4), Field(0, 4)]
  }

  function NodeFields(n: Node): seq<Field> {
    [Field(ToU64(n.inode), 8), Field(ToU64(n.mtimeNS), 8), Field(ToU64(n.ctimeNS), 8), Field(ToU64(n.length), 8),
     Field(n.mode, 4), Field(n.uid, 4), Field(n.gid, 4), Field(n.nlink, 4), Field(n.rdev, 4),
     Field(n.keyID % U32_RANGE, 4), Field(n.flags, 4), Field(n.typ, 1), Field(0, 3)]
  }

  /** A chunk record ends in its identity; these are the 32 bytes before it. */
  function ChunkFields(c: Chunk): seq<Field> {
    [Field(ToU64(c.inode), 8), Field(c.idx, 4), Field(c.llen, 4), Field(c.clen, 4), Field(c.keyID, 4),
     Field(c.alg, 1), Field(0, 7)]
  }

  function BlobFields(inode: i64, off: u32, len: u32): seq<Field> {
    [Field(ToU64(inode), 8), Field(off, 4), Field(len, 4)]
  }

  function XattrFields(x: Xattr, nameOff: u32, valueOff: u32, valueLen: u32): seq<Field> {
    [Field(ToU64(x.inode), 8), Field(nameOff, 4), Field(|x.name| % U16_RANGE, 2), Field(0, 2),
     Field(valueOff, 4), Field(valueLen, 4)]
  }

  function NestedFields(n: Nested, nameOff: u32, idx: u32): seq<Field> {
    [Field(ToU64(n.parent), 8), Field(nameOff, 4), Field(|n.name| % U16_RANGE, 2), Field(0, 2),
     Field(idx, 4), Field(0, 4)]
  }

  function EntryFields(id: u32, off: u64, len: u64): seq<Field> {
    [Field(id, 4), Field(0, 4), Field(off, 8), Field(len, 8)]
  }

  lemma EdgeStarts(e: Edge, off: u32, idx: u32)
    ensures var fs := EdgeFields(e, off, idx);
      && Start(fs, 0) == 0 && Start(fs, 1) == 8 && Start(fs, 2) == 16 && Start(fs, 3) == 20 && Start(fs, 4) == 22
      && Start(fs, 5) == 23 && Start(fs, 6) == 24 && Start(fs, 7) == 28 && Start(fs, 8) == 32
  {
  }

  lemma ChunkStarts(c: Chunk)
    ensures var fs := ChunkFields(c);
      && Start(fs, 0) == 0 && Start(fs, 1) == 8 && Start(fs, 2) == 12 && Start(fs, 3) == 16 && Start(fs, 4) == 20
      && Start(fs, 5) == 24 && Start(fs, 6) == 25 && Start(fs, 7) == 32
  {
  }

  lemma BlobStarts(inode: i64, off: u32, len: u32)
    ensures var fs := BlobFields(inode, off, len);
      && Start(fs, 0) == 0 && Start(fs, 1) == 8 && Start(fs, 2) == 12 && Start(fs, 3) == 16
  {
  }

  lemma XattrStarts(x: Xattr, nameOff: u32, valueOff: u32, valueLen: u32)
    ensures var fs := XattrFields(x, nameOff, valueOff, valueLen);
      && Start(fs, 0) == 0 && Start(fs, 1) == 8 && Start(fs, 2) == 12 && Start(fs, 3) == 14 && Start(fs, 4) == 16
      && Start(fs, 5) == 20 && Start(fs, 6) == 24
  {
  }

  lemma NestedStarts(n: Nested, nameOff: u32, idx: u32)
    ensures var fs := NestedFields(n, nameOff, idx);
      && Start(fs, 0) == 0 && Start(fs, 1) == 8 && Start(fs, 2) == 12 && Start(fs, 3) == 14 && Start(fs, 4) == 16
      && Start(fs, 5) == 20 && Start(fs, 6) == 24
  {
  }

  lemma EntryStarts(id: u32, off: u64, len: u64)
    ensures var fs := EntryFields(id, off, len);
      && Start(fs, 0) == 0 && Start(fs, 1) == 4 && Start(fs, 2) == 8 && Start(fs, 3) == 16 && Start(fs, 4) == 24
  {
  }

  function EdgeBytes(e: Edge, off: u32, idx: u32): (b: Bytes)
    ensures |b| == EDGE_LEN
  {
    var fs := EdgeFields(e, off, idx);
    EdgeStarts(e, off, idx);
    Pack(fs)
  }

  function NodeBytes(n: Node): (b: Bytes)
    ensures |b| == NODE_LEN
  {
    NodeStarts(n);
    Pack(NodeFields(n))
  }

  function ChunkBytes(c: Chunk): (b: Bytes)
    ensures |b| == 32 + |c.identity|
  {
    var fs := ChunkFields(c);
    ChunkStarts(c);
    Pack(fs) + c.identity
  }

  function BlobBytes(inode: i64, off: u32, len: u32): (b: Bytes)
    ensures |b| == INLINE_LEN
  {
    BlobStarts(inode, off, len);
    Pack(BlobFields(inode, off, len))
  }

  function XattrBytes(x: Xattr, nameOff: u32, valueOff: u32, valueLen: u32): (b: Bytes)
    ensures |b| == XATTR_LEN
  {
    var fs := XattrFields(x, nameOff, valueOff, valueLen);
    XattrStarts(x, nameOff, valueOff, valueLen);
    Pack(fs)
  }

  function NestedBytes(n: Nested, nameOff: u32, idx: u32): (b: Bytes)
    ensures |b| == NESTED_LEN
  {
    var fs := NestedFields(n, nameOff, idx);
    NestedStarts(n, nameOff, idx);
    Pack(fs)
  }

  function EntryBytes(id: u32, off: u64, len: u64): (b: Bytes)
    ensures |b| == SECTION_ENTRY_LEN
  {
    EntryStarts(id, off, len);
    Pack(EntryFields(id, off, len))
  }

  lemma NodeStarts(n: Node)
    ensures var fs := NodeFields(n);
      && Start(fs, 0) == 0 && Start(fs, 1) == 8 && Start(fs, 2) == 16 && Start(fs, 3) == 24 && Start(fs, 4) == 32 && Start(fs, 5) == 36
      && Start(fs, 6) == 40 && Start(fs, 7) == 44 && Start(fs, 8) == 48 && Start(fs, 9) == 52
      && Start(fs, 10) == 56 && Start(fs, 11) == 60 && Start(fs, 12) == 61 && Start(fs, 13) == 64
  {
  }

  function DecodeNode(r: Bytes): Node
    requires |r| == NODE_LEN
  {
    Node(I64At(r, 0), U8At(r, 60), U32At(r, 32), U32At(r, 36), U32At(r, 40), I64At(r, 8), I64At(r, 16),
         U32At(r, 44), I64At(r, 24), U32At(r, 48), U32At(r, 52), U32At(r, 56))
  }

  lemma OneByte(r: Bytes, off: nat)
    requires off < |r|
    ensures UnLe(r[off..off + 1]) == U8At(r, off)
  {
    assert r[off..off + 1][1..] == [];
  }

  /** Where a node record keeps what. */
  lemma NodeLies(n: Node)
    requires 0 <= n.keyID < U32_RANGE
    ensures var r := NodeBytes(n);
      && I64At(r, 0) == n.inode && I64At(r, 8) == n.mtimeNS && I64At(r, 16) == n.ctimeNS && I64At(r, 24) == n.length
      && U32At(r, 32) == n.mode && U32At(r, 36) == n.uid && U32At(r, 40) == n.gid && U32At(r, 44) == n.nlink
      && U32At(r, 48) == n.rdev && U32At(r, 52) == n.keyID && U32At(r, 56) == n.flags && U8At(r, 60) == n.typ
  {
    hide Pack, UnLe, Start;
    var fs := NodeFields(n);
    NodeStarts(n);
    Ranges();
    NodeFits(n);
    PackField(fs, 0);
    PackField(fs, 1);
    PackField(fs, 2);
    PackField(fs, 3);
    PackField(fs, 4);
    PackField(fs, 5);
    PackField(fs, 6);
    PackField(fs, 7);
    PackField(fs, 8);
    PackField(fs, 9);
    PackField(fs, 10);
    PackField(fs, 11);
    OneByte(NodeBytes(n), 60);
    SignRoundTrip(n.inode);
    SignRoundTrip(n.mtimeNS);
    SignRoundTrip(n.ctimeNS);
    SignRoundTrip(n.length);
  }

  /** A node in range survives its record. */
  lemma NodeRoundTrip(n: Node)
    requires 0 <= n.keyID < U32_RANGE
    ensures DecodeNode(NodeBytes(n)) == n
  {
    hide NodeBytes, I64At, U32At, U8At;
    NodeLies(n);
  }

  lemma NodeFits(n: Node)
    ensures Fits(NodeFields(n))
  {
    Ranges();
  }

  /** Where an edge record keeps what. */
  lemma EdgeRoundTrip(e: Edge, off: u32, idx: u32)
    requires |e.name| < U16_RANGE
    ensures var r := EdgeBytes(e, off, idx);
      && I64At(r, 0) == e.parent && I64At(r, 8) == e.inode && U32At(r, 16) == off && U16At(r, 20) == |e.name|
      && U8At(r, 22) == e.typ && U32At(r, 24) == idx
  {
    hide Pack, UnLe;
    var fs := EdgeFields(e, off, idx);
    EdgeStarts(e, off, idx);
    Ranges();
    PackField(fs, 0);
    PackField(fs, 1);
    PackField(fs, 2);
    PackField(fs, 3);
    PackField(fs, 4);
    PackField(fs, 6);
    OneByte(EdgeBytes(e, off, idx), 22);
    SignRoundTrip(e.parent);
    SignRoundTrip(e.inode);
  }

  lemma ChunkRoundTrip(c: Chunk)
    requires |c.identity| == 32
    ensures var r := ChunkBytes(c);
      && I64At(r, 0) == c.inode && U32At(r, 8) == c.idx && U32At(r, 12) == c.llen && U32At(r, 16) == c.clen
      && U32At(r, 20) == c.keyID && U8At(r, 24) == c.alg && r[32..64] == c.identity
  {
    hide Pack, UnLe;
    var fs := ChunkFields(c);
    var r := ChunkBytes(c);
    ChunkStarts(c);
    Ranges();
    assert r[0..0 + |Pack(fs)|] == Pack(fs);
    FieldInside(r, 0, fs, 0);
    FieldInside(r, 0, fs, 1);
    FieldInside(r, 0, fs, 2);
    FieldInside(r, 0, fs, 3);
    FieldInside(r, 0, fs, 4);
    FieldInside(r, 0, fs, 5);
    OneByte(r, 24);
    SignRoundTrip(c.inode);
  }

  lemma BlobRoundTrip(inode: i64, off: u32, len: u32)
    ensures var r := BlobBytes(inode, off, len);
      I64At(r, 0) == inode && U32At(r, 8) == off && U32At(r, 12) == len
  {
    hide Pack, UnLe;
    var fs := BlobFields(inode, off, len);
    BlobStarts(inode, off, len);
    Ranges();
    PackField(fs, 0);
    PackField(fs, 1);
    PackField(fs, 2);
    SignRoundTrip(inode);
  }

  lemma XattrRoundTrip(x: Xattr, nameOff: u32, valueOff: u32, valueLen: u32)
    requires |x.name| < U16_RANGE
    ensures var r := XattrBytes(x, nameOff, valueOff, valueLen);
      && I64At(r, 0) == x.inode && U32At(r, 8) == nameOff && U16At(r, 12) == |x.name|
      && U32At(r, 16) == valueOff && U32At(r, 20) == valueLen
  {
    hide Pack, UnLe;
    var fs := XattrFields(x, nameOff, valueOff, valueLen);
    XattrStarts(x, nameOff, valueOff, valueLen);
    Ranges();
    PackField(fs, 0);
    PackField(fs, 1);
    PackField(fs, 2);
    PackField(fs, 4);
    PackField(fs, 5);
    SignRoundTrip(x.inode);
  }

  lemma NestedRoundTrip(n: Nested, nameOff: u32, idx: u32)
    requires |n.name| < U16_RANGE
    ensures var r := NestedBytes(n, nameOff, idx);
      I64At(r, 0) == n.parent && U32At(r, 8) == nameOff && U16At(r, 12) == |n.name| && U32At(r, 16) == idx
  {
    hide Pack, UnLe;
    var fs := NestedFields(n, nameOff, idx);
    NestedStarts(n, nameOff, idx);
    Ranges();
    PackField(fs, 0);
    PackField(fs, 1);
    PackField(fs, 2);
    PackField(fs, 4);
    SignRoundTrip(n.parent);
  }

  lemma EntryRoundTrip(id: u32, off: u64, len: u64)
    ensures var r := EntryBytes(id, off, len);
      U32At(r, 0) == id && U64At(r, 8) == off && U64At(r, 16) == len
  {
    hide Pack, UnLe;
    var fs := EntryFields(id, off, len);
    EntryStarts(id, off, len);
    Ranges();
    PackField(fs, 0);
    PackField(fs, 2);
    PackField(fs, 3);
  }
}
