/** What is laid out can be found again: header, table and sections of an assembled blob. */
module StaticLayout {
  import opened Arithmetic
  import opened Bytes
  import opened LittleEndian
  import opened Arena
  import opened CatalogRecords
  import opened StaticFormat
  import opened StaticEncoding
  import opened StaticView

  lemma {:induction false} PlacedInside(secs: seq<Sec>, from: nat, k: nat)
    requires k < |secs|
    ensures var p := Place(secs, from)[k];
      && p.id == secs[k].id && p.data == secs[k].data && p.off % 8 == 0
      && from <= p.off && p.off + |p.data| <= PlaceEnd(secs, from)
  {
    var n := |secs| - 1;
    if k < n {
      PlacedInside(secs[..n], from, k);
    }
  }

  lemma PlaceStep(secs: seq<Sec>, from: nat)
    requires secs != []
    ensures var n, end := |secs| - 1, PlaceEnd(secs[..|secs| - 1], from);
      && Place(secs, from)[n].off == Align8(end) && Place(secs, from)[n].data == secs[n].data
      && (forall k :: 0 <= k < n ==> Place(secs, from)[k] == Place(secs[..n], from)[k])
      && BodyBytes(secs, from) == BodyBytes(secs[..n], from) + Zeros(Align8(end) - end) + secs[n].data
  {
    hide Align8, Zeros;
    var n := |secs| - 1;
    var front, last := secs[..n], secs[n];
    var end := PlaceEnd(front, from);
    var placed := Place(front, from);
    assert |placed| == n;
    assert Place(secs, from) == placed + [Placed(last.id, Align8(end), last.data)];
    assert BodyBytes(secs, from) == BodyBytes(front, from) + Zeros(Align8(end) - end) + last.data;
  }

  /** Section k's bytes, wherever the body starts. */
  lemma {:induction false} PlacedData(secs: seq<Sec>, prefix: Bytes, k: nat)
    requires k < |secs|
    ensures var p, buf := Place(secs, |prefix|)[k], prefix + BodyBytes(secs, |prefix|);
      p.off + |p.data| <= |buf| && buf[p.off..p.off + |p.data|] == secs[k].data
  {
    hide Place, BodyBytes, PlaceEnd, Zeros;
    var n := |secs| - 1;
    var from := |prefix|;
    var end := PlaceEnd(secs[..n], from);
    PlaceStep(secs, from);
    var buf := prefix + BodyBytes(secs, from);
    var shorter := prefix + BodyBytes(secs[..n], from);
    var tail := Zeros(Align8(end) - end) + secs[n].data;
    assert buf == shorter + tail;
    if k < n {
      PlacedData(secs[..n], prefix, k);
      var p := Place(secs, from)[k];
      SliceKept(shorter, tail, p.off, p.off + |p.data|);
    } else {
      assert |shorter| == end;
      assert buf[Align8(end)..] == secs[n].data;
    }
  }

  lemma SliceKept(a: Bytes, b: Bytes, i: nat, j: nat)
    requires i <= j <= |a|
    ensures (a + b)[i..j] == a[i..j]
  {
  }

  /** The parts of an assembled blob. */
  lemma AssembleParts(h: Header, secs: seq<Sec>)
    ensures var table := Flat(TableRecords(Place(secs, TableEnd(secs))));
      var head := EncodeHeader(h) + table;
      && |table| == |secs| * SECTION_ENTRY_LEN && |head| == TableEnd(secs)
      && Assemble(h, secs) == head + BodyBytes(secs, TableEnd(secs))
      && Assemble(h, secs) == EncodeHeader(h) + (table + BodyBytes(secs, TableEnd(secs)))
      && |Assemble(h, secs)| == PlaceEnd(secs, TableEnd(secs))
  {
    hide Flat, EncodeHeader, BodyBytes, Place, PlaceEnd;
    FlatLength(TableRecords(Place(secs, TableEnd(secs))), SECTION_ENTRY_LEN);
  }

  /** Table entry k of an assembled blob, as bytes. */
  lemma EntryBytesFound(h: Header, secs: seq<Sec>, k: nat)
    requires k < |secs|
    ensures var buf, p := Assemble(h, secs), Place(secs, TableEnd(secs))[k];
      && HEADER_LEN + (k + 1) * SECTION_ENTRY_LEN <= |buf|
      && buf[HEADER_LEN + k * SECTION_ENTRY_LEN..HEADER_LEN + (k + 1) * SECTION_ENTRY_LEN]
           == EntryBytes(p.id, U64(p.off), U64(|p.data|))
  {
    hide EncodeHeader, BodyBytes, Place, EntryBytes, Flat, Assemble;
    var recs := TableRecords(Place(secs, TableEnd(secs)));
    var buf := Assemble(h, secs);
    AssembleParts(h, secs);
    FlatRec(recs, SECTION_ENTRY_LEN, k);
    assert buf[HEADER_LEN..HEADER_LEN + |Flat(recs)|] == Flat(recs);
    SliceOfSlice(buf, HEADER_LEN, HEADER_LEN + |Flat(recs)|, k * SECTION_ENTRY_LEN, (k + 1) * SECTION_ENTRY_LEN);
  }

  /** Table entry k says where section k went. */
  lemma EntryFound(h: Header, secs: seq<Sec>, k: nat)
    requires k < |secs| && |Assemble(h, secs)| < U64_RANGE
    ensures HEADER_LEN + (k + 1) * SECTION_ENTRY_LEN <= |Assemble(h, secs)|
    ensures var p := Place(secs, TableEnd(secs))[k];
      && p.off < U64_RANGE && |p.data| < U64_RANGE
      && EntryAt(Assemble(h, secs), HEADER_LEN, k) == Entry(p.id, p.off, |p.data|)
  {
    hide EncodeHeader, BodyBytes, Place, EntryBytes, Flat, Assemble, Pack, UnLe;
    var p := Place(secs, TableEnd(secs))[k];
    AssembleParts(h, secs);
    EntryBytesFound(h, secs, k);
    PlacedInside(secs, TableEnd(secs), k);
    EntryRoundTrip(p.id, U64(p.off), U64(|p.data|));
  }

  lemma TableStarts(h: Header, secs: seq<Sec>)
    ensures HEADER_LEN <= |Assemble(h, secs)| && ReadTable(Assemble(h, secs), HEADER_LEN, 0) == Some([])
  {
    AssembleParts(h, secs);
  }

  /** Reading the table of an assembled blob gives back the sections that went in. */
  lemma {:induction false} TableFound(h: Header, secs: seq<Sec>, n: nat)
    requires n <= |secs| && |Assemble(h, secs)| < U64_RANGE
    ensures HEADER_LEN + n * SECTION_ENTRY_LEN <= |Assemble(h, secs)|
    ensures ReadTable(Assemble(h, secs), HEADER_LEN, n) == Some(secs[..n])
  {
    hide EncodeHeader, BodyBytes, Place, Assemble, EntryAt, ReadTable;
    TableStarts(h, secs);
    if n > 0 {
      TableFound(h, secs, n - 1);
      EntryFound(h, secs, n - 1);
      SectionFound(h, secs, n - 1);
      OneMoreEntry(Assemble(h, secs), HEADER_LEN, n);
      assert secs[..n] == secs[..n - 1] + [secs[n - 1]];
    }
  }

  lemma OneMoreEntry(buf: Bytes, base: nat, n: nat)
    requires 0 < n && base + n * SECTION_ENTRY_LEN <= |buf|
    requires ReadTable(buf, base, n - 1).Some? && EntryOk(buf, EntryAt(buf, base, n - 1))
    ensures var e := EntryAt(buf, base, n - 1);
      ReadTable(buf, base, n) == Some(ReadTable(buf, base, n - 1).value + [Sec(e.id, DataOf(buf, e))])
  {
  }

  lemma SectionFound(h: Header, secs: seq<Sec>, k: nat)
    requires k < |secs| && |Assemble(h, secs)| < U64_RANGE
    ensures var p, buf := Place(secs, TableEnd(secs))[k], Assemble(h, secs);
      && p.id == secs[k].id && p.off + |p.data| <= |buf| && p.off % 8 == 0
      && buf[p.off..p.off + |p.data|] == secs[k].data
  {
    hide EncodeHeader, BodyBytes, Place;
    AssembleParts(h, secs);
    PlacedInside(secs, TableEnd(secs), k);
    PlacedData(secs, EncodeHeader(h) + Flat(TableRecords(Place(secs, TableEnd(secs)))), k);
  }

  // ---------- Attaching what was laid out ----------

  /** Attaching with empty sections left out, which is what the writer does. */
  ghost function AttachNonEmpty(secs: seq<Sec>): Option<Sections> {
    if secs == [] then Some(NO_SECTIONS)
    else
      var front, last := AttachNonEmpty(secs[..|secs| - 1]), secs[|secs| - 1];
      if front.None? then None
      else if last.data == [] then front
      else Attached(front.value, last.id, last.data)
  }

  lemma {:induction false} NonEmptyAttaches(secs: seq<Sec>)
    ensures AttachAll(NonEmpty(secs)) == AttachNonEmpty(secs)
  {
    if secs != [] {
      var n := |secs| - 1;
      NonEmptyAttaches(secs[..n]);
      var before := NonEmpty(secs[..n]);
      if secs[n].data != [] {
        assert NonEmpty(secs) == before + [secs[n]];
        assert (before + [secs[n]])[..|before|] == before;
      } else {
        assert NonEmpty(secs) == before;
      }
    }
  }

  /** The sections a reader of Encode(c) ends up with. */
  ghost function SectionsOf(c: Catalog): Sections {
    Sections(Names(c).buf, if Blobs(c).buf == [] then None else Some(Blobs(c).buf),
             Flat(EdgeRecords(c.edges, c.nodes, Names(c))), Flat(NodeRecords(c.nodes)), Flat(ChunkRecords(c.chunks)),
             Flat(BlobRecords(c.inline, Blobs(c))), Flat(XattrRecords(c.xattrs, Names(c), Blobs(c))),
             Flat(BlobRecords(c.symlinks, Blobs(c))), Flat(NestedRecords(c.nested, Names(c), Identities(c))),
             Identities(c).buf, Some(MetaRecord(c.meta, Blobs(c))))
  }

  lemma AttachStep(secs: seq<Sec>, k: nat, s: Sections)
    requires k < |secs| && AttachNonEmpty(secs[..k]) == Some(s)
    ensures AttachNonEmpty(secs[..k + 1]) ==
            if secs[k].data == [] then Some(s) else Attached(s, secs[k].id, secs[k].data)
  {
    assert secs[..k + 1][..k] == secs[..k];
  }

  lemma WholeFlat(recs: seq<Bytes>, w: nat)
    requires w > 0 && Widths(recs, w)
    ensures |Flat(recs)| % w == 0 && Count(Flat(recs), w) == |recs|
  {
    FlatLength(recs, w);
    CountExact(|recs|, w);
  }

  /** Every record array of a well-formed catalog has its record width. */
  lemma SectionsShaped(c: Catalog)
    requires forall i :: 0 <= i < |c.chunks| ==> |c.chunks[i].identity| == IDENTITY_LEN
    requires forall i :: 0 <= i < |c.nested| ==> |c.nested[i].identity| == IDENTITY_LEN
    ensures SectionsOf(c).Shaped() && |MetaRecord(c.meta, Blobs(c))| == META_LEN
  {
    hide Flat, EdgeRecord, NodeBytes, ChunkBytes, BlobRecord, XattrRecord, NestedRecord, Intern;
    WholeFlat(EdgeRecords(c.edges, c.nodes, Names(c)), EDGE_LEN);
    WholeFlat(NodeRecords(c.nodes), NODE_LEN);
    WholeFlat(ChunkRecords(c.chunks), CHUNK_LEN);
    WholeFlat(BlobRecords(c.inline, Blobs(c)), INLINE_LEN);
    WholeFlat(XattrRecords(c.xattrs, Names(c), Blobs(c)), XATTR_LEN);
    WholeFlat(BlobRecords(c.symlinks, Blobs(c)), SYMLINK_LEN);
    WholeFlat(NestedRecords(c.nested, Names(c), Identities(c)), NESTED_LEN);
    InternWhole(NestedIdentities(c.nested));
    MetaStarts(c.meta, Blobs(c));
  }

  lemma MetaStarts(m: Meta, blobs: Interned)
    ensures var fs := MetaFields(m, blobs);
      && Start(fs, 0) == 0 && Start(fs, 1) == 4 && Start(fs, 2) == 8 && Start(fs, 3) == 12 && Start(fs, 4) == 16
      && Start(fs, 5) == 20 && Start(fs, 6) == 24
  {
  }

  /** t as far as its first n sections go. */
  ghost function Upto(t: Sections, n: nat): Sections {
    Sections(if n > 0 then t.names else [], if n > 9 then t.blobs else None, if n > 1 then t.edges else [],
             if n > 2 then t.nodes else [], if n > 3 then t.chunks else [], if n > 4 then t.inline else [],
             if n > 5 then t.xattrs else [], if n > 6 then t.symlinks else [], if n > 7 then t.nested else [],
             if n > 8 then t.identities else [], if n > 10 then t.metaRaw else None)
  }

  /** The sections of t, one of each kind, in the order they are laid out. */
  ghost predicate AllKinds(all: seq<Sec>, t: Sections) {
    && |all| == 11 && t.Shaped() && t.metaRaw.Some? && t.blobs != Some([])
    && all[0] == Sec(SEC_NAMES, t.names) && all[1] == Sec(SEC_EDGES, t.edges) && all[2] == Sec(SEC_NODES, t.nodes)
    && all[3] == Sec(SEC_CHUNKS, t.chunks) && all[4] == Sec(SEC_INLINE, t.inline)
    && all[5] == Sec(SEC_XATTRS, t.xattrs) && all[6] == Sec(SEC_SYMLINKS, t.symlinks)
    && all[7] == Sec(SEC_NESTED, t.nested) && all[8] == Sec(SEC_IDENTITIES, t.identities)
    && all[9] == Sec(SEC_BLOBS, t.BlobArena()) && all[10] == Sec(SEC_META, t.metaRaw.value)
  }

  lemma KindAttached(all: seq<Sec>, t: Sections, k: nat)
    requires AllKinds(all, t) && k < 11
    ensures (if all[k].data == [] then Some(Upto(t, k)) else Attached(Upto(t, k), all[k].id, all[k].data))
         == Some(Upto(t, k + 1))
  {
  }

  lemma {:induction false} KindsAttached(all: seq<Sec>, t: Sections, k: nat)
    requires AllKinds(all, t) && k <= 11
    ensures AttachNonEmpty(all[..k]) == Some(Upto(t, k))
  {
    if k > 0 {
      hide AllKinds, Attached, AttachNonEmpty, Upto;
      KindsAttached(all, t, k - 1);
      KindAttached(all, t, k - 1);
      assert |all| == 11 by { ElevenKinds(all, t); }
      AttachStep(all, k - 1, Upto(t, k - 1));
    }
  }

  lemma ElevenKinds(all: seq<Sec>, t: Sections)
    requires AllKinds(all, t)
    ensures |all| == 11 && all[..11] == all && Upto(t, 11) == t
  {
  }

  lemma AllAttached(c: Catalog)
    requires SectionsOf(c).Shaped()
    ensures AttachAll(NonEmpty(AllSections(c))) == Some(SectionsOf(c))
  {
    hide Flat, MetaRecord, Intern, AttachNonEmpty, NonEmpty, AttachAll;
    NonEmptyAttaches(AllSections(c));
    KindsAttached(AllSections(c), SectionsOf(c), 11);
    ElevenKinds(AllSections(c), SectionsOf(c));
  }

  lemma NoneAttached(secs: seq<Sec>)
    ensures AttachNonEmpty(secs[..0]) == Some(NO_SECTIONS)
  {
  }
}
