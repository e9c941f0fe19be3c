/** The catalog writer: records in any order, serialised once. */
module StaticWriter {
  import opened Bytes
  import opened LittleEndian
  import opened SortKeys
  import opened Arena
  import opened CatalogRecords
  import opened StaticFormat
  import opened StaticEncoding

  /** A ref whose numbers fit the record and whose identity has the right width. */
  predicate RefOk(r: ChunkRef) {
    && |r.identity| == IDENTITY_LEN
    && 0 <= r.llen < U32_RANGE && 0 <= r.clen < U32_RANGE
    && 0 <= r.alg < BYTE_RANGE && 0 <= r.keyID < U32_RANGE
  }

  function ChunkOf(inode: i64, i: nat, r: ChunkRef): Chunk
    requires RefOk(r)
  {
    Chunk(inode, U32(i), r.identity, r.llen, r.clen, r.alg, r.keyID)
  }

  /** Row i of a file: the ref as it is, under its position. */
  ghost predicate IsRow(x: Chunk, inode: i64, i: nat, r: ChunkRef) {
    && x.inode == inode && x.idx == i % 0x1_0000_0000 && x.identity == r.identity
    && x.llen == r.llen && x.clen == r.clen && x.alg == r.alg && x.keyID == r.keyID
  }

  /** The records of one file's refs: the position is the index, offsets are not stored. */
  ghost function ChunksOf(inode: i64, refs: seq<ChunkRef>): (cs: seq<Chunk>)
    requires forall i :: 0 <= i < |refs| ==> RefOk(refs[i])
    ensures |cs| == |refs|
    ensures forall i :: 0 <= i < |refs| ==> cs[i] == ChunkOf(inode, i, refs[i])
  {
    seq(|refs|, i requires 0 <= i < |refs| => ChunkOf(inode, i, refs[i]))
  }

  /** Identities are as wide as their slots. */
  ghost predicate WellFormed(c: Catalog) {
    && (forall i :: 0 <= i < |c.chunks| ==> |c.chunks[i].identity| == IDENTITY_LEN)
    && (forall i :: 0 <= i < |c.nested| ==> |c.nested[i].identity| == IDENTITY_LEN)
  }

  lemma WellFormedPermuted(a: Catalog, b: Catalog)
    requires WellFormed(a) && SameRecords(a, b)
    ensures WellFormed(b)
  {
    forall i | 0 <= i < |b.chunks|
      ensures |b.chunks[i].identity| == IDENTITY_LEN
    {
      assert b.chunks[i] in multiset(a.chunks);
    }
    forall i | 0 <= i < |b.nested|
      ensures |b.nested[i].identity| == IDENTITY_LEN
    {
      assert b.nested[i] in multiset(a.nested);
    }
  }

  class StaticWriter {
    const meta: Meta
    const rootInode: i64
    const inlineMax: u32
    var nodes: seq<Node>
    var edges: seq<Edge>
    var chunks: seq<Chunk>
    var inline: seq<BlobRec>
    var symlinks: seq<BlobRec>
    var xattrs: seq<Xattr>
    var nested: seq<Nested>

    constructor (meta: Meta, rootInode: i64, inlineMax: i64)
      ensures Valid()
      ensures Content() == Catalog(meta, rootInode, inlineMax % U32_RANGE, [], [], [], [], [], [], [])
    {
      this.meta := meta;
      this.rootInode := rootInode;
      this.inlineMax := inlineMax % U32_RANGE;
      nodes, edges, chunks, inline, symlinks, xattrs, nested := [], [], [], [], [], [], [];
    }

    /** The records collected so far, in the order they are held. */
    function Content(): Catalog
      reads this
    {
      Catalog(meta, rootInode, inlineMax, nodes, edges, chunks, inline, symlinks, xattrs, nested)
    }

    ghost predicate Valid()
      reads this
    {
      WellFormed(Content())
    }

    method AddNode(n: Node)
      requires Valid()
      modifies this
      ensures Valid() && Content() == old(Content()).(nodes := old(nodes) + [n])
    {
      nodes := nodes + [n];
    }

    method AddEdge(parent: i64, name: Bytes, inode: i64, typ: u8)
      requires Valid()
      modifies this
      ensures Valid() && Content() == old(Content()).(edges := old(edges) + [Edge(parent, inode, name, typ)])
    {
      edges := edges + [Edge(parent, inode, name, typ)];
    }

    method AddNested(parent: i64, name: Bytes, identity: Bytes) returns (ok: bool)
      requires Valid()
      modifies this
      ensures Valid() && (ok <==> |identity| == IDENTITY_LEN)
      ensures Content() == if ok then old(Content()).(nested := old(nested) + [Nested(parent, name, identity)])
                           else old(Content())
    {
      if |identity| != IDENTITY_LEN {
        return false;
      }
      nested := nested + [Nested(parent, name, identity)];
      return true;
    }

    /** Records one file's refs, up to the first that does not fit. */
    method AddChunks(inode: i64, refs: seq<ChunkRef>) returns (ok: bool, added: nat)
      requires Valid()
      modifies this
      ensures Valid() && added <= |refs| && forall i :: 0 <= i < added ==> RefOk(refs[i])
      ensures ok ==> added == |refs|
      ensures !ok ==> added < |refs| && !RefOk(refs[added])
      ensures Content() == old(Content()).(chunks := old(chunks) + ChunksOf(inode, refs[..added]))
      ensures ok <==> forall i: nat :: i < |refs| ==>
                |refs[i].identity| == 32 && 0 <= refs[i].llen <= 0xffff_ffff && 0 <= refs[i].clen <= 0xffff_ffff
                && 0 <= refs[i].alg <= 0xff && 0 <= refs[i].keyID <= 0xffff_ffff
      ensures |chunks| == |old(chunks)| + added && forall i: nat :: i < added ==> IsRow(chunks[|old(chunks)| + i], inode, i, refs[i])
    {
      added := 0;
      while added < |refs|
        invariant added <= |refs| && forall i :: 0 <= i < added ==> RefOk(refs[i])
        invariant Valid() && Content() == old(Content()).(chunks := old(chunks) + ChunksOf(inode, refs[..added]))
      {
        var r := refs[added];
        if |r.identity| != IDENTITY_LEN {
          return false, added;
        }
        if r.llen < 0 || r.llen > 0xffff_ffff || r.clen < 0 || r.clen > 0xffff_ffff {
          return false, added;
        }
        if r.alg < 0 || r.alg > 0xff || r.keyID < 0 || r.keyID > 0xffff_ffff {
          return false, added;
        }
        var c := ChunkOf(inode, added, r);
        assert ChunksOf(inode, refs[..added + 1]) == ChunksOf(inode, refs[..added]) + [c];
        chunks := chunks + [c];
        added := added + 1;
      }
      return true, added;
    }

    method SetInline(inode: i64, data: Bytes)
      requires Valid()
      modifies this
      ensures Valid() && Content() == old(Content()).(inline := old(inline) + [BlobRec(inode, data)])
    {
      inline := inline + [BlobRec(inode, data)];
    }

    method SetSymlink(inode: i64, target: Bytes)
      requires Valid()
      modifies this
      ensures Valid() && Content() == old(Content()).(symlinks := old(symlinks) + [BlobRec(inode, target)])
    {
      symlinks := symlinks + [BlobRec(inode, target)];
    }

    method AddXattr(inode: i64, name: Bytes, value: Bytes)
      requires Valid()
      modifies this
      ensures Valid() && Content() == old(Content()).(xattrs := old(xattrs) + [Xattr(inode, name, value)])
    {
      xattrs := xattrs + [Xattr(inode, name, value)];
    }

    /** Sorts every array where it is. */
    method SortAll()
      requires Valid()
      modifies this
      ensures Valid() && SameRecords(Content(), old(Content())) && Content().Sorted()
    {
      ghost var before := Content();
      nodes := SortSlice(nodes, NodeKey);
      edges := SortSlice(edges, EdgeKey);
      chunks := SortSlice(chunks, ChunkKey);
      inline := SortSlice(inline, BlobKey);
      symlinks := SortSlice(symlinks, BlobKey);
      xattrs := SortSlice(xattrs, XattrKey);
      nested := SortSlice(nested, NestedKey);
      WellFormedPermuted(before, Content());
    }

    /**
      Serialises the catalog, or fails on a name too long, an edge without a node, a key out of
      range or an arena past 4 GiB.
     */
    method Finish() returns (out: Option<Bytes>)
      requires Valid()
      modifies this
      ensures Valid() && SameRecords(Content(), old(Content())) && Content().Sorted()
      ensures out.Some? <==> Encodable(Content())
      ensures out.Some? ==> out.value == Encode(Content())
    {
      SortAll();
      var body := EncodeSections(Content());
      if body.None? {
        return None;
      }
      var secs := NonEmpty(body.value);
      var bytes := LayOut(HeaderOf(Content(), |secs|), secs);
      out := Some(bytes);
    }
  }

  // ---------- The parts of Finish ----------

  /** The arena has met the first n of `all`, and `part` comes next. */
  ghost predicate Next(b: Builder, all: seq<Bytes>, part: seq<Bytes>)
    reads b
  {
    && b.Valid() && |b.strings| + |part| <= |all| && b.strings == all[..|b.strings|]
    && all[|b.strings|..|b.strings| + |part|] == part
  }

  /** The arena has met everything up to n. */
  ghost predicate Met(b: Builder, all: seq<Bytes>, n: nat)
    reads b
  {
    b.Valid() && n <= |all| && b.strings == all[..n]
  }

  ghost predicate Indexes(idx: map<i64, nat>, nodes: seq<Node>) {
    forall inode: i64 ::
      && (inode in idx <==> NodeIndex(nodes, inode).Some?)
      && (inode in idx ==> idx[inode] == NodeIndex(nodes, inode).value)
  }

  /** A map from each inode to the last node that has it. */
  method IndexNodes(nodes: seq<Node>) returns (idx: map<i64, nat>)
    ensures Indexes(idx, nodes)
  {
    idx := map[];
    for i := 0 to |nodes|
      invariant Indexes(idx, nodes[..i])
    {
      assert nodes[..i + 1][..i] == nodes[..i];
      idx := idx[nodes[i].inode := i];
    }
    assert nodes[..|nodes|] == nodes;
  }

  lemma FlatStep(recs: seq<Bytes>, more: seq<Bytes>, r: Bytes)
    requires more == recs + [r]
    ensures Flat(more) == Flat(recs) + r
  {
    assert more[..|more| - 1] == recs;
  }

  method EncodeEdges(edges: seq<Edge>, nodes: seq<Node>, nodeIdx: map<i64, nat>, names: Builder, ghost all: seq<Bytes>)
    returns (sec: Option<Bytes>)
    requires Next(names, all, EdgeNames(edges))
    requires Indexes(nodeIdx, nodes)
    modifies names
    ensures sec.Some? ==>
      && Met(names, all, |old(names.strings)| + |edges|)
      && (forall i :: 0 <= i < |edges| ==> EdgeOk(edges[i], nodes))
      && sec.value == Flat(EdgeRecords(edges, nodes, Intern(all)))
    ensures sec.None? ==>
      (exists i :: 0 <= i < |edges| && !EdgeOk(edges[i], nodes)) || |Intern(all).buf| > ARENA_MAX
  {
    hide Intern, Flat;
    ghost var start := |names.strings|;
    var out: Bytes := [];
    assert EdgeRecords(edges[..0], nodes, Intern(all)) == [];
    FlatEmpty();
    for i := 0 to |edges|
      invariant Met(names, all, start + i)
      invariant forall k :: 0 <= k < i ==> EdgeOk(edges[k], nodes)
      invariant out == Flat(EdgeRecords(edges[..i], nodes, Intern(all)))
    {
      var e := edges[i];
      assert all[start + i] == all[start..start + |edges|][i] == e.name;
      var off := InternNext(names, e.name, all);
      if off.None? {
        return None;
      }
      if |e.name| > NAME_MAX {
        assert !EdgeOk(edges[i], nodes);
        return None;
      }
      if e.inode !in nodeIdx {
        assert !EdgeOk(edges[i], nodes);
        return None;
      }
      FlatStep(EdgeRecords(edges[..i], nodes, Intern(all)), EdgeRecords(edges[..i + 1], nodes, Intern(all)),
               EdgeRecord(e, nodes, Intern(all)));
      out := out + EdgeBytes(e, U32(off.value), U32(nodeIdx[e.inode]));
    }
    assert edges[..|edges|] == edges;
    sec := Some(out);
  }

  lemma FlatEmpty()
    ensures Flat([]) == []
  {
  }

  method EncodeNodes(nodes: seq<Node>) returns (sec: Option<Bytes>)
    ensures sec.Some? <==> forall i :: 0 <= i < |nodes| ==> NodeOk(nodes[i])
    ensures sec.Some? ==> sec.value == Flat(NodeRecords(nodes))
  {
    hide Flat;
    var out: Bytes := [];
    assert NodeRecords(nodes[..0]) == [];
    FlatEmpty();
    for i := 0 to |nodes|
      invariant forall k :: 0 <= k < i ==> NodeOk(nodes[k])
      invariant out == Flat(NodeRecords(nodes[..i]))
    {
      if nodes[i].keyID < 0 || nodes[i].keyID > 0xffff_ffff {
        assert !NodeOk(nodes[i]);
        return None;
      }
      FlatStep(NodeRecords(nodes[..i]), NodeRecords(nodes[..i + 1]), NodeBytes(nodes[i]));
      out := out + NodeBytes(nodes[i]);
    }
    assert nodes[..|nodes|] == nodes;
    sec := Some(out);
  }

  method EncodeChunks(chunks: seq<Chunk>) returns (sec: Bytes)
    ensures sec == Flat(ChunkRecords(chunks))
  {
    hide Flat;
    sec := [];
    assert ChunkRecords(chunks[..0]) == [];
    FlatEmpty();
    for i := 0 to |chunks|
      invariant sec == Flat(ChunkRecords(chunks[..i]))
    {
      FlatStep(ChunkRecords(chunks[..i]), ChunkRecords(chunks[..i + 1]), ChunkBytes(chunks[i]));
      sec := sec + ChunkBytes(chunks[i]);
    }
    assert chunks[..|chunks|] == chunks;
  }

  method EncodeBlobs(recs: seq<BlobRec>, blobs: Builder, ghost all: seq<Bytes>) returns (sec: Option<Bytes>)
    requires Next(blobs, all, BlobData(recs))
    modifies blobs
    ensures sec.Some? ==>
      && Met(blobs, all, |old(blobs.strings)| + |recs|)
      && sec.value == Flat(BlobRecords(recs, Intern(all)))
    ensures sec.None? ==> |Intern(all).buf| > ARENA_MAX
  {
    hide Intern, Flat;
    ghost var start := |blobs.strings|;
    var out: Bytes := [];
    assert BlobRecords(recs[..0], Intern(all)) == [];
    FlatEmpty();
    for i := 0 to |recs|
      invariant Met(blobs, all, start + i)
      invariant out == Flat(BlobRecords(recs[..i], Intern(all)))
    {
      var rec := recs[i];
      assert all[start + i] == all[start..start + |recs|][i] == rec.data;
      var off := InternNext(blobs, rec.data, all);
      if off.None? {
        return None;
      }
      FlatStep(BlobRecords(recs[..i], Intern(all)), BlobRecords(recs[..i + 1], Intern(all)),
               BlobRecord(rec, Intern(all)));
      out := out + BlobBytes(rec.inode, U32(off.value), U32(|rec.data|));
    }
    assert recs[..|recs|] == recs;
    sec := Some(out);
  }

  method EncodeXattrs(xattrs: seq<Xattr>, names: Builder, blobs: Builder,
                      ghost allNames: seq<Bytes>, ghost allBlobs: seq<Bytes>)
    returns (sec: Option<Bytes>)
    requires names != blobs
    requires Next(names, allNames, XattrNames(xattrs)) && Next(blobs, allBlobs, XattrValues(xattrs))
    modifies names, blobs
    ensures sec.Some? ==>
      && Met(names, allNames, |old(names.strings)| + |xattrs|) && Met(blobs, allBlobs, |old(blobs.strings)| + |xattrs|)
      && (forall i :: 0 <= i < |xattrs| ==> |xattrs[i].name| <= NAME_MAX)
      && sec.value == Flat(XattrRecords(xattrs, Intern(allNames), Intern(allBlobs)))
    ensures sec.None? ==>
      || (exists i :: 0 <= i < |xattrs| && |xattrs[i].name| > NAME_MAX)
      || |Intern(allNames).buf| > ARENA_MAX || |Intern(allBlobs).buf| > ARENA_MAX
  {
    hide Intern, Flat;
    ghost var nStart, bStart := |names.strings|, |blobs.strings|;
    ghost var fn, fb := Intern(allNames), Intern(allBlobs);
    var out: Bytes := [];
    assert XattrRecords(xattrs[..0], fn, fb) == [];
    FlatEmpty();
    for i := 0 to |xattrs|
      invariant Met(names, allNames, nStart + i) && Met(blobs, allBlobs, bStart + i)
      invariant forall k :: 0 <= k < i ==> |xattrs[k].name| <= NAME_MAX
      invariant out == Flat(XattrRecords(xattrs[..i], fn, fb))
    {
      var x := xattrs[i];
      assert allNames[nStart + i] == allNames[nStart..nStart + |xattrs|][i] == x.name;
      assert allBlobs[bStart + i] == allBlobs[bStart..bStart + |xattrs|][i] == x.value;
      var nameOff := InternNext(names, x.name, allNames);
      if nameOff.None? {
        return None;
      }
      var valueOff := InternNext(blobs, x.value, allBlobs);
      if valueOff.None? {
        return None;
      }
      if |x.name| > NAME_MAX {
        assert |xattrs[i].name| > NAME_MAX;
        return None;
      }
      FlatStep(XattrRecords(xattrs[..i], fn, fb), XattrRecords(xattrs[..i + 1], fn, fb), XattrRecord(x, fn, fb));
      out := out + XattrBytes(x, U32(nameOff.value), U32(valueOff.value), U32(|x.value|));
    }
    assert xattrs[..|xattrs|] == xattrs;
    sec := Some(out);
  }

  method EncodeNested(nested: seq<Nested>, names: Builder, ghost all: seq<Bytes>)
    returns (sec: Option<Bytes>, idents: Bytes)
    requires Next(names, all, NestedNames(nested))
    requires forall i :: 0 <= i < |nested| ==> |nested[i].identity| == IDENTITY_LEN
    modifies names
    ensures sec.Some? ==>
      && Met(names, all, |old(names.strings)| + |nested|)
      && (forall i :: 0 <= i < |nested| ==> |nested[i].name| <= NAME_MAX)
      && sec.value == Flat(NestedRecords(nested, Intern(all), Intern(NestedIdentities(nested))))
      && idents == Intern(NestedIdentities(nested)).buf
    ensures sec.None? ==>
      (exists i :: 0 <= i < |nested| && |nested[i].name| > NAME_MAX) || |Intern(all).buf| > ARENA_MAX
  {
    hide Intern, Flat;
    ghost var start := |names.strings|;
    ghost var ids := NestedIdentities(nested);
    ghost var fn, fi := Intern(all), Intern(ids);
    var table := new IdentityTable();
    var out: Bytes := [];
    assert NestedRecords(nested[..0], fn, fi) == [];
    FlatEmpty();
    for i := 0 to |nested|
      invariant Met(names, all, start + i)
      invariant fresh(table) && table.Valid() && table.ids == ids[..i]
      invariant forall k :: 0 <= k < i ==> |nested[k].name| <= NAME_MAX
      invariant out == Flat(NestedRecords(nested[..i], fn, fi))
    {
      var n := nested[i];
      assert all[start + i] == all[start..start + |nested|][i] == n.name;
      var nameOff := InternNext(names, n.name, all);
      if nameOff.None? {
        return None, [];
      }
      if |n.name| > NAME_MAX {
        assert |nested[i].name| > NAME_MAX;
        return None, [];
      }
      var idx := table.Add(n.identity);
      assert ids[..i + 1] == ids[..i] + [n.identity];
      InternWithin(ids, i);
      FlatStep(NestedRecords(nested[..i], fn, fi), NestedRecords(nested[..i + 1], fn, fi), NestedRecord(n, fn, fi));
      out := out + NestedBytes(n, U32(nameOff.value), U32(idx));
    }
    assert nested[..|nested|] == nested && ids[..|nested|] == ids;
    sec, idents := Some(out), table.buf;
  }

  method EncodeMeta(meta: Meta, blobs: Builder, ghost all: seq<Bytes>) returns (sec: Option<Bytes>)
    requires Next(blobs, all, MetaStrings(meta))
    modifies blobs
    ensures sec.Some? ==>
      && Met(blobs, all, |old(blobs.strings)| + 3) && sec.value == MetaRecord(meta, Intern(all))
    ensures sec.None? ==> |Intern(all).buf| > ARENA_MAX
  {
    hide Intern;
    ghost var start := |blobs.strings|;
    assert forall k :: 0 <= k < 3 ==> all[start + k] == all[start..start + 3][k] == MetaStrings(meta)[k];
    assert all[start + 0] == meta.volumeUUID;
    var uuid := InternNext(blobs, meta.volumeUUID, all);
    if uuid.None? {
      return None;
    }
    assert all[start + 1] == meta.coveredPath;
    var path := InternNext(blobs, meta.coveredPath, all);
    if path.None? {
      return None;
    }
    assert all[start + 2] == meta.identityAlgo;
    var algo := InternNext(blobs, meta.identityAlgo, all);
    if algo.None? {
      return None;
    }
    sec := Some(Pack([Field(U32(uuid.value), 4), Field(U32(|meta.volumeUUID|), 4),
                      Field(U32(path.value), 4), Field(U32(|meta.coveredPath|), 4),
                      Field(U32(algo.value), 4), Field(U32(|meta.identityAlgo|), 4)]));
  }

  ghost predicate Part(all: seq<Bytes>, n: nat, part: seq<Bytes>) {
    n + |part| <= |all| && all[n..n + |part|] == part
  }

  /** Where in the two string lists each array's strings lie. */
  lemma Segments(c: Catalog)
    ensures var all, e, x := NameStrings(c), |c.edges|, |c.xattrs|;
      && |all| == e + x + |c.nested|
      && Part(all, 0, EdgeNames(c.edges)) && Part(all, e, XattrNames(c.xattrs))
      && Part(all, e + x, NestedNames(c.nested))
    ensures var all, i, s, x := BlobStrings(c), |c.inline|, |c.symlinks|, |c.xattrs|;
      && |all| == i + s + x + 3
      && Part(all, 0, BlobData(c.inline)) && Part(all, i, BlobData(c.symlinks))
      && Part(all, i + s, XattrValues(c.xattrs)) && Part(all, i + s + x, MetaStrings(c.meta))
  {
  }

  lemma NextPart(b: Builder, all: seq<Bytes>, n: nat, part: seq<Bytes>)
    requires Met(b, all, n) && Part(all, n, part)
    ensures Next(b, all, part) && |b.strings| == n
  {
  }

  lemma NothingMet(b: Builder, all: seq<Bytes>)
    requires b.Valid() && b.strings == []
    ensures Met(b, all, 0)
  {
  }

  lemma AllMet(b: Builder, all: seq<Bytes>)
    requires Met(b, all, |all|)
    ensures b.buf == Intern(all).buf && |b.buf| <= ARENA_MAX
  {
    assert all[..|all|] == all;
  }

  /** The inline and symlink arrays, which share the blob arena. */
  method EncodeContents(c: Catalog, blobs: Builder) returns (secs: Option<(Bytes, Bytes)>)
    requires Met(blobs, BlobStrings(c), 0)
    modifies blobs
    ensures secs.Some? ==>
      && Met(blobs, BlobStrings(c), |c.inline| + |c.symlinks|)
      && secs.value.0 == Flat(BlobRecords(c.inline, Blobs(c)))
      && secs.value.1 == Flat(BlobRecords(c.symlinks, Blobs(c)))
    ensures secs.None? ==> |Blobs(c).buf| > ARENA_MAX
  {
    hide Intern, Flat, BlobStrings, Met, Next, Part, Builder.Valid;
    Segments(c);
    NextPart(blobs, BlobStrings(c), 0, BlobData(c.inline));
    var inlineSec := EncodeBlobs(c.inline, blobs, BlobStrings(c));
    if inlineSec.None? {
      return None;
    }
    NextPart(blobs, BlobStrings(c), |c.inline|, BlobData(c.symlinks));
    var symlinkSec := EncodeBlobs(c.symlinks, blobs, BlobStrings(c));
    if symlinkSec.None? {
      return None;
    }
    secs := Some((inlineSec.value, symlinkSec.value));
  }

  /** Everything met after the inline and symlink arrays and the edges. */
  method EncodeAttributes(c: Catalog, names: Builder, blobs: Builder) returns (secs: Option<(Bytes, Bytes, Bytes,
                          Bytes)>)
    requires names != blobs && WellFormed(c)
    requires Met(names, NameStrings(c), |c.edges|) && Met(blobs, BlobStrings(c), |c.inline| + |c.symlinks|)
    modifies names, blobs
    ensures secs.Some? ==>
      && names.buf == Names(c).buf && |names.buf| <= ARENA_MAX && blobs.buf == Blobs(c).buf && |blobs.buf| <= ARENA_MAX
      && (forall i :: 0 <= i < |c.xattrs| ==> |c.xattrs[i].name| <= NAME_MAX)
      && (forall i :: 0 <= i < |c.nested| ==> |c.nested[i].name| <= NAME_MAX)
      && secs.value.0 == Flat(XattrRecords(c.xattrs, Names(c), Blobs(c)))
      && secs.value.1 == Flat(NestedRecords(c.nested, Names(c), Identities(c)))
      && secs.value.2 == Identities(c).buf
      && secs.value.3 == MetaRecord(c.meta, Blobs(c))
    ensures secs.None? ==> !Encodable(c)
  {
    hide Intern, Flat, NameStrings, BlobStrings, EdgeOk, NodeOk, MetaRecord, Met, Next, Part, Builder.Valid;
    Segments(c);
    ghost var e, i, s, x := |c.edges|, |c.inline|, |c.symlinks|, |c.xattrs|;
    NextPart(names, NameStrings(c), e, XattrNames(c.xattrs));
    NextPart(blobs, BlobStrings(c), i + s, XattrValues(c.xattrs));
    var xattrSec := EncodeXattrs(c.xattrs, names, blobs, NameStrings(c), BlobStrings(c));
    if xattrSec.None? {
      return None;
    }
    NextPart(names, NameStrings(c), e + x, NestedNames(c.nested));
    var nestedSec, idents := EncodeNested(c.nested, names, NameStrings(c));
    if nestedSec.None? {
      return None;
    }
    NextPart(blobs, BlobStrings(c), i + s + x, MetaStrings(c.meta));
    var metaSec := EncodeMeta(c.meta, blobs, BlobStrings(c));
    if metaSec.None? {
      return None;
    }
    AllMet(names, NameStrings(c));
    AllMet(blobs, BlobStrings(c));
    secs := Some((xattrSec.value, nestedSec.value, idents, metaSec.value));
  }

  /** Every section's data, or None when some record or arena cannot be written. */
  method EncodeSections(c: Catalog) returns (body: Option<seq<Sec>>)
    requires WellFormed(c)
    ensures body.Some? <==> Encodable(c)
    ensures body.Some? ==> body.value == AllSections(c)
  {
    hide Intern, Flat, NameStrings, BlobStrings, EdgeOk, NodeOk, MetaRecord, Met, Next, Part, Builder.Valid;
    Segments(c);
    var nodeIdx := IndexNodes(c.nodes);
    var names := new Builder();
    var blobs := new Builder();
    NothingMet(names, NameStrings(c));
    NothingMet(blobs, BlobStrings(c));
    NextPart(names, NameStrings(c), 0, EdgeNames(c.edges));
    var edgeSec := EncodeEdges(c.edges, c.nodes, nodeIdx, names, NameStrings(c));
    if edgeSec.None? {
      return None;
    }
    var nodeSec := EncodeNodes(c.nodes);
    if nodeSec.None? {
      return None;
    }
    var chunkSec := EncodeChunks(c.chunks);
    var contents := EncodeContents(c, blobs);
    if contents.None? {
      return None;
    }
    var attributes := EncodeAttributes(c, names, blobs);
    if attributes.None? {
      return None;
    }
    body := Some([Sec(SEC_NAMES, names.buf), Sec(SEC_EDGES, edgeSec.value), Sec(SEC_NODES, nodeSec.value),
                  Sec(SEC_CHUNKS, chunkSec), Sec(SEC_INLINE, contents.value.0), Sec(SEC_XATTRS, attributes.value.0),
                  Sec(SEC_SYMLINKS, contents.value.1), Sec(SEC_NESTED, attributes.value.1),
                  Sec(SEC_IDENTITIES, attributes.value.2), Sec(SEC_BLOBS, blobs.buf),
                  Sec(SEC_META, attributes.value.3)]);
  }

  /** Places each section at the next 8-byte boundary and writes header, table and data. */
  method LayOut(h: Header, secs: seq<Sec>) returns (out: Bytes)
    ensures out == Assemble(h, secs)
  {
    hide EncodeHeader;
    var off := TableEnd(secs);
    ghost var start := off;
    var table: Bytes := [];
    var body: Bytes := [];
    FlatEmpty();
    for i := 0 to |secs|
      invariant off == PlaceEnd(secs[..i], start)
      invariant table == Flat(TableRecords(Place(secs[..i], start)))
      invariant body == BodyBytes(secs[..i], start)
    {
      hide Flat;
      assert secs[..i + 1][..i] == secs[..i];
      var at := Align8(off);
      body := body + Zeros(at - off) + secs[i].data;
      var entry := EntryBytes(secs[i].id, U64(at), U64(|secs[i].data|));
      FlatStep(TableRecords(Place(secs[..i], start)), TableRecords(Place(secs[..i + 1], start)), entry);
      table := table + entry;
      off := at + |secs[i].data|;
    }
    assert secs[..|secs|] == secs;
    out := EncodeHeader(h) + table + body;
  }
}
