/** What the bytes of a written catalog are, by offset and number, whatever wrote and reads them. */
module StaticBytes {
  import opened Arithmetic
  import opened Bytes
  import opened LittleEndian
  import opened Arena
  import opened CatalogRecords
  import opened StaticFormat
  import opened StaticEncoding
  import opened StaticWriter
  import opened StaticView
  import opened StaticLayout
  import opened StaticRoundTrip

  // ---------- The header ----------

  const BLAKE3: Bytes := [98, 108, 97, 107, 101, 51, 45, 50, 53, 54] // "blake3-256"
  const KEYED: Bytes := [45, 107, 101, 121, 101, 100] // "-keyed"

  ghost function One(present: bool): nat {
    if present then 1 else 0
  }

  ghost predicate AnyFilled(strings: seq<Bytes>) {
    exists s :: s in strings && s != []
  }

  /** How many sections these records need: an empty one is left out, and the metadata never is empty. */
  ghost function SectionsNeeded(c: Catalog): nat {
    One(AnyFilled(NameStrings(c))) + One(c.edges != []) + One(c.nodes != []) + One(c.chunks != []) + One(c.inline != [])
    + One(c.xattrs != []) + One(c.symlinks != []) + One(c.nested != []) + One(c.nested != [])
    + One(AnyFilled(BlobStrings(c))) + 1
  }

  /** Format 1.0 with a 64-byte header, the flag for attributes, and the counts of what was added. */
  ghost predicate Tells(h: Header, c: Catalog) {
    && h.major == 1 && h.minor == 0 && h.headerLen == 64 && h.sectionCount == SectionsNeeded(c)
    && h.flags < 2 && (h.flags % 2 == 1 <==> c.xattrs != [])
    && ToI64(h.rootInode) == c.rootInode && h.entryCount == |c.edges| && h.nodeCount == |c.nodes| && h.inlineMax == c.inlineMax
    && h.identityAlgo == (if c.meta.identityAlgo == BLAKE3 then 1 else if c.meta.identityAlgo == BLAKE3 + KEYED then 2 else 0)
  }

  lemma NonEmptyStep(secs: seq<Sec>, k: nat)
    requires k < |secs|
    ensures |NonEmpty(secs[..k + 1])| == |NonEmpty(secs[..k])| + One(secs[k].data != [])
  {
    assert secs[..k + 1][..k] == secs[..k];
  }

  lemma FlatFilled(recs: seq<Bytes>, w: nat)
    requires Widths(recs, w) && w > 0
    ensures Flat(recs) != [] <==> recs != []
  {
    FlatLength(recs, w);
    if recs != [] {
      MultipleIsFar(|recs|, w);
    }
  }

  lemma MetaFilled(m: Meta, blobs: Interned)
    ensures MetaRecord(m, blobs) != []
  {
    hide Pack;
    MetaStarts(m, blobs);
  }

  /** How many of the first k sections are not empty. */
  ghost function FilledUpTo(secs: seq<Sec>, k: nat): nat
    requires k <= |secs|
  {
    if k == 0 then 0 else FilledUpTo(secs, k - 1) + One(secs[k - 1].data != [])
  }

  lemma {:induction false} NonEmptyCount(secs: seq<Sec>, k: nat)
    requires k <= |secs|
    ensures |NonEmpty(secs[..k])| == FilledUpTo(secs, k)
  {
    if k > 0 {
      NonEmptyCount(secs, k - 1);
      NonEmptyStep(secs, k - 1);
    }
  }

  lemma Eleven(secs: seq<Sec>)
    requires |secs| == 11
    ensures FilledUpTo(secs, 11) ==
      One(secs[0].data != []) + One(secs[1].data != []) + One(secs[2].data != []) + One(secs[3].data != [])
      + One(secs[4].data != []) + One(secs[5].data != []) + One(secs[6].data != []) + One(secs[7].data != [])
      + One(secs[8].data != []) + One(secs[9].data != []) + One(secs[10].data != [])
  {
    hide One;
    assert FilledUpTo(secs, 1) == One(secs[0].data != []);
    assert FilledUpTo(secs, 3) == FilledUpTo(secs, 1) + One(secs[1].data != []) + One(secs[2].data != []);
    assert FilledUpTo(secs, 5) == FilledUpTo(secs, 3) + One(secs[3].data != []) + One(secs[4].data != []);
    assert FilledUpTo(secs, 7) == FilledUpTo(secs, 5) + One(secs[5].data != []) + One(secs[6].data != []);
    assert FilledUpTo(secs, 9) == FilledUpTo(secs, 7) + One(secs[7].data != []) + One(secs[8].data != []);
    assert FilledUpTo(secs, 11) == FilledUpTo(secs, 9) + One(secs[9].data != []) + One(secs[10].data != []);
  }

  lemma SectionCount(c: Catalog)
    requires WellFormed(c)
    ensures |NonEmpty(AllSections(c))| == SectionsNeeded(c)
  {
    hide AllSections, Intern, Flat, NonEmpty, AnyFilled, FilledUpTo;
    var secs := AllSections(c);
    ArenasFilled(c);
    ArraysFilled(c);
    NonEmptyCount(secs, 11);
    assert secs[..11] == secs;
    Eleven(secs);
  }

  /** Which of the sections are not empty. */
  lemma ArenasFilled(c: Catalog)
    requires WellFormed(c)
    ensures var secs := AllSections(c);
      && (secs[0].data != [] <==> AnyFilled(NameStrings(c))) && (secs[9].data != [] <==> AnyFilled(BlobStrings(c)))
      && (secs[8].data != [] <==> c.nested != []) && secs[10].data != []
  {
    hide Intern, Flat, MetaRecord, NameStrings, BlobStrings;
    ArenaEmptyExactly(NameStrings(c));
    ArenaEmptyExactly(BlobStrings(c));
    ArenaEmptyExactly(NestedIdentities(c.nested));
    if c.nested != [] {
      assert NestedIdentities(c.nested)[0] in NestedIdentities(c.nested);
    }
    MetaFilled(c.meta, Blobs(c));
  }

  lemma ArraysFilled(c: Catalog)
    requires WellFormed(c)
    ensures var secs := AllSections(c);
      && (secs[1].data != [] <==> c.edges != []) && (secs[2].data != [] <==> c.nodes != [])
      && (secs[3].data != [] <==> c.chunks != []) && (secs[4].data != [] <==> c.inline != [])
      && (secs[5].data != [] <==> c.xattrs != []) && (secs[6].data != [] <==> c.symlinks != [])
      && (secs[7].data != [] <==> c.nested != [])
  {
    hide Intern, Flat, MetaRecord, EdgeRecord, NodeBytes, BlobRecord, XattrRecord, NestedRecord;
    FlatFilled(EdgeRecords(c.edges, c.nodes, Names(c)), EDGE_LEN);
    FlatFilled(NodeRecords(c.nodes), NODE_LEN);
    FlatFilled(ChunkRecords(c.chunks), CHUNK_LEN);
    FlatFilled(BlobRecords(c.inline, Blobs(c)), INLINE_LEN);
    FlatFilled(XattrRecords(c.xattrs, Names(c), Blobs(c)), XATTR_LEN);
    FlatFilled(BlobRecords(c.symlinks, Blobs(c)), SYMLINK_LEN);
    FlatFilled(NestedRecords(c.nested, Names(c), Identities(c)), NESTED_LEN);
  }

  /** The header written tells the truth about the records, wherever one looks for it. */
  lemma EncodedTells(c: Catalog)
    requires Writable(c)
    ensures var b := Encode(c);
      && DecodeHeader(b).Ok? && HeaderAt(b, DecodeHeader(b).value) && Tells(DecodeHeader(b).value, c)
  {
    hide AllSections, Encodable, EncodeHeader, DecodeHeader, Assemble, NonEmpty, Place, PlaceEnd, BodyBytes, SectionsNeeded,
         HeaderAt, Allocatable;
    var secs := NonEmpty(AllSections(c));
    var h := HeaderOf(c, |secs|);
    EncodedLength(c);
    SectionCount(c);
    HeaderReads(c);
    AssembleParts(h, secs);
    HeaderLies(h, Flat(TableRecords(Place(secs, TableEnd(secs)))) + BodyBytes(secs, TableEnd(secs)));
    SignRoundTrip(c.rootInode);
    AlgorithmNames();
    CountsFit(c);
  }

  lemma AlgorithmNames()
    ensures Ascii("blake3-256") == BLAKE3 && Ascii("blake3-256-keyed") == BLAKE3 + KEYED
  {
  }

  lemma CountsFit(c: Catalog)
    requires Allocatable(c)
    ensures U64(|c.edges|) == |c.edges| && U64(|c.nodes|) == |c.nodes|
  {
    MultipleIsFar(|c.edges|, EDGE_LEN);
  }

  // ---------- The sections ----------

  /** Which section has what, by the number it goes under. */
  ghost predicate Numbered(sec: Sec, c: Catalog) {
    match sec.id
    case 1 => sec.data == Names(c).buf
    case 2 => sec.data == Flat(EdgeRecords(c.edges, c.nodes, Names(c)))
    case 3 => sec.data == Flat(NodeRecords(c.nodes))
    case 4 => sec.data == Flat(ChunkRecords(c.chunks))
    case 5 => sec.data == Flat(BlobRecords(c.inline, Blobs(c)))
    case 6 => sec.data == Flat(XattrRecords(c.xattrs, Names(c), Blobs(c)))
    case 7 => sec.data == Flat(BlobRecords(c.symlinks, Blobs(c)))
    case 8 => sec.data == Flat(NestedRecords(c.nested, Names(c), Identities(c)))
    case 9 => sec.data == Identities(c).buf
    case 10 => sec.data == Blobs(c).buf
    case 11 => sec.data == MetaRecord(c.meta, Blobs(c))
    case _ => false
  }

  lemma {:induction false} NonEmptyAre(secs: seq<Sec>, s: Sec)
    ensures s in NonEmpty(secs) <==> s in secs && s.data != []
  {
    if secs != [] {
      var n := |secs| - 1;
      NonEmptyAre(secs[..n], s);
      assert secs == secs[..n] + [secs[n]];
    }
  }

  lemma {:induction false} NonEmptyAscends(secs: seq<Sec>)
    requires forall i, j :: 0 <= i < j < |secs| ==> secs[i].id < secs[j].id
    ensures forall i, j :: 0 <= i < j < |NonEmpty(secs)| ==> NonEmpty(secs)[i].id < NonEmpty(secs)[j].id
  {
    if secs != [] {
      var n := |secs| - 1;
      NonEmptyAscends(secs[..n]);
      forall s | s in NonEmpty(secs[..n])
        ensures s.id < secs[n].id
      {
        NonEmptyAre(secs[..n], s);
      }
    }
  }

  /** The table of a written catalog names the sections by their numbers, ascending, with empty ones left out. */
  lemma SectionsByNumber(c: Catalog)
    requires Writable(c)
    ensures var b := Encode(c);
      && 64 + |NonEmpty(AllSections(c))| * 24 <= |b| && ReadTable(b, 64, |NonEmpty(AllSections(c))|).Some?
      && (forall s :: s in ReadTable(b, 64, |NonEmpty(AllSections(c))|).value ==> s.data != [] && Numbered(s, c))
      && (forall s: Sec :: Numbered(s, c) && s.data != [] ==> s in ReadTable(b, 64, |NonEmpty(AllSections(c))|).value)
      && (forall i, j :: 0 <= i < j < |ReadTable(b, 64, |NonEmpty(AllSections(c))|).value| ==>
            ReadTable(b, 64, |NonEmpty(AllSections(c))|).value[i].id < ReadTable(b, 64, |NonEmpty(AllSections(c))|).value[j].id)
  {
    hide Encodable, EncodeHeader, DecodeHeader, Assemble, NonEmpty, Place, PlaceEnd, BodyBytes, Allocatable, Intern, Flat,
         ReadTable, Names, Blobs, Identities, MetaRecord;
    var secs := NonEmpty(AllSections(c));
    EncodedLength(c);
    TableFound(HeaderOf(c, |secs|), secs, |secs|);
    assert secs[..|secs|] == secs;
    NonEmptyAscends(AllSections(c));
    forall s: Sec
      ensures s in secs <==> s.data != [] && Numbered(s, c)
    {
      NonEmptyAre(AllSections(c), s);
    }
  }
}
