/** Exactly which bytes open as a catalog, and which of them each section is. */
module StaticOpen {
  import opened Bytes
  import opened LittleEndian
  import opened Arena
  import opened CatalogRecords
  import opened StaticFormat
  import opened StaticEncoding
  import opened StaticView

  // ---------- The bytes ----------

  const MAGIC_WORD: Bytes := [80, 69, 76, 70, 83, 67, 65, 84]

  /** Format 1, and room for the header and a table of at most 64 entries. */
  ghost predicate HeaderFits(b: Bytes) {
    && |b| >= 64 && b[..8] == MAGIC_WORD && U16At(b, 8) == 1
    && 64 <= U16At(b, 12) && U16At(b, 14) <= 64 && U16At(b, 12) + 24 * U16At(b, 14) <= |b|
  }

  ghost function IdAt(b: Bytes, i: nat): u32
    requires HeaderFits(b) && i < U16At(b, 14)
  {
    U32At(b, U16At(b, 12) + 24 * i)
  }

  ghost function OffAt(b: Bytes, i: nat): u64
    requires HeaderFits(b) && i < U16At(b, 14)
  {
    U64At(b, U16At(b, 12) + 24 * i + 8)
  }

  ghost function LenAt(b: Bytes, i: nat): u64
    requires HeaderFits(b) && i < U16At(b, 14)
  {
    U64At(b, U16At(b, 12) + 24 * i + 16)
  }

  /** A section of this number may be this long; those not known may have any length. */
  ghost predicate LengthFits(id: u32, len: nat) {
    && (id == 2 || id == 9 ==> len % 32 == 0)
    && (id == 3 || id == 4 ==> len % 64 == 0)
    && (id == 5 || id == 7 ==> len % 16 == 0)
    && (id == 6 || id == 8 ==> len % 24 == 0)
    && (id == 11 ==> len >= 24)
  }

  ghost predicate EntryFits(b: Bytes, i: nat)
    requires HeaderFits(b) && i < U16At(b, 14)
  {
    OffAt(b, i) % 8 == 0 && OffAt(b, i) + LenAt(b, i) <= |b| && LengthFits(IdAt(b, i), LenAt(b, i))
  }

  ghost predicate EntriesFit(b: Bytes)
    requires HeaderFits(b)
  {
    forall i: nat :: i < U16At(b, 14) ==> EntryFits(b, i)
  }

  /** The last entry under a number is the one that counts. */
  ghost predicate LastUnder(b: Bytes, id: u32, i: nat)
    requires HeaderFits(b)
  {
    i < U16At(b, 14) && IdAt(b, i) == id && forall j: nat :: i < j < U16At(b, 14) ==> IdAt(b, j) != id
  }

  ghost predicate NoneUnder(b: Bytes, id: u32)
    requires HeaderFits(b)
  {
    forall i: nat :: i < U16At(b, 14) ==> IdAt(b, i) != id
  }

  /** The section under a number has this data; None when no entry names it. */
  ghost predicate SectionIs(b: Bytes, id: u32, data: Option<Bytes>)
    requires HeaderFits(b) && EntriesFit(b)
  {
    match data
    case None => NoneUnder(b, id)
    case Some(d) => exists i: nat :: LastUnder(b, id, i) && EntryFits(b, i) && d == b[OffAt(b, i)..OffAt(b, i) + LenAt(b, i)]
  }

  /** The three strings a meta section names lie within an arena of this length. */
  ghost predicate MetaFits(meta: Option<Bytes>, arena: nat) {
    meta.Some? ==> |meta.value| >= 24 && forall k :: 0 <= k < 3 ==>
      U32At(meta.value, 8 * k) + U32At(meta.value, 8 * k + 4) <= arena
  }

  // ---------- The table ----------

  lemma EntryAtIs(b: Bytes, i: nat)
    requires HeaderFits(b) && i < U16At(b, 14)
    ensures U16At(b, 12) + (i + 1) * SECTION_ENTRY_LEN <= |b|
    ensures EntryAt(b, U16At(b, 12), i) == Entry(IdAt(b, i), OffAt(b, i), LenAt(b, i))
  {
    hide UnLe;
    var from, to := U16At(b, 12) + i * SECTION_ENTRY_LEN, U16At(b, 12) + (i + 1) * SECTION_ENTRY_LEN;
    SliceOfSlice(b, from, to, 0, 4);
    SliceOfSlice(b, from, to, 8, 16);
    SliceOfSlice(b, from, to, 16, 24);
  }

  lemma {:induction false} TableExactly(b: Bytes, n: nat)
    requires HeaderFits(b) && n <= U16At(b, 14)
    ensures U16At(b, 12) + n * SECTION_ENTRY_LEN <= |b|
    ensures var table := ReadTable(b, U16At(b, 12), n);
      && (table.Some? <==> forall i: nat :: i < n ==> OffAt(b, i) % 8 == 0 && OffAt(b, i) + LenAt(b, i) <= |b|)
      && (table.Some? ==> forall i: nat :: i < n ==>
            && OffAt(b, i) + LenAt(b, i) <= |b|
            && table.value[i] == Sec(IdAt(b, i), b[OffAt(b, i)..OffAt(b, i) + LenAt(b, i)]))
  {
    hide IdAt, OffAt, LenAt, HeaderFits, EntryAt;
    TableRoom(b, n);
    if n > 0 {
      TableExactly(b, n - 1);
      EntryAtIs(b, n - 1);
    }
  }

  lemma TableRoom(b: Bytes, n: nat)
    requires HeaderFits(b) && n <= U16At(b, 14)
    ensures U16At(b, 12) + n * SECTION_ENTRY_LEN <= |b|
  {
  }

  // ---------- The sections ----------

  /** The data of the last section under a number. */
  ghost function LastData(secs: seq<Sec>, id: u32): Option<Bytes> {
    if secs == [] then None
    else if secs[|secs| - 1].id == id then Some(secs[|secs| - 1].data)
    else LastData(secs[..|secs| - 1], id)
  }

  ghost predicate LastAt(secs: seq<Sec>, id: u32, data: Bytes, i: int) {
    0 <= i < |secs| && secs[i] == Sec(id, data) && forall j :: i < j < |secs| ==> secs[j].id != id
  }

  lemma {:induction false} LastDataIs(secs: seq<Sec>, id: u32)
    ensures LastData(secs, id).None? <==> forall i :: 0 <= i < |secs| ==> secs[i].id != id
    ensures LastData(secs, id).Some? ==> exists i :: LastAt(secs, id, LastData(secs, id).value, i)
  {
    if secs != [] && secs[|secs| - 1].id != id {
      var n := |secs| - 1;
      LastDataIs(secs[..n], id);
      if LastData(secs, id).Some? {
        var i :| LastAt(secs[..n], id, LastData(secs, id).value, i);
        assert forall j :: i <= j < n ==> secs[..n][j] == secs[j];
        assert LastAt(secs, id, LastData(secs, id).value, i);
      } else {
        assert forall i :: 0 <= i < n ==> secs[..n][i] == secs[i];
      }
    } else if secs != [] {
      assert LastAt(secs, id, LastData(secs, id).value, |secs| - 1);
    }
  }

  ghost function Plain(data: Option<Bytes>): Bytes {
    match data case Some(d) => d case None => []
  }

  /** The sections attached, by number. */
  ghost predicate Attaches(secs: seq<Sec>, s: Sections) {
    && s.names == Plain(LastData(secs, 1)) && s.edges == Plain(LastData(secs, 2)) && s.nodes == Plain(LastData(secs, 3))
    && s.chunks == Plain(LastData(secs, 4)) && s.inline == Plain(LastData(secs, 5)) && s.xattrs == Plain(LastData(secs, 6))
    && s.symlinks == Plain(LastData(secs, 7)) && s.nested == Plain(LastData(secs, 8))
    && s.identities == Plain(LastData(secs, 9)) && s.blobs == LastData(secs, 10) && s.metaRaw == LastData(secs, 11)
  }

  lemma {:induction false} AttachesExactly(secs: seq<Sec>)
    ensures AttachAll(secs).Some? <==> forall i :: 0 <= i < |secs| ==> LengthFits(secs[i].id, |secs[i].data|)
    ensures AttachAll(secs).Some? ==> Attaches(secs, AttachAll(secs).value)
  {
    if secs != [] {
      var n := |secs| - 1;
      AttachesExactly(secs[..n]);
      assert forall i :: 0 <= i < n ==> secs[..n][i] == secs[i];
      if AttachAll(secs[..n]).Some? {
        AttachOne(AttachAll(secs[..n]).value, secs);
      }
    }
  }

  lemma AttachOne(front: Sections, secs: seq<Sec>)
    requires secs != [] && Attaches(secs[..|secs| - 1], front)
    ensures var last := secs[|secs| - 1]; var s := Attached(front, last.id, last.data);
      (s.Some? <==> LengthFits(last.id, |last.data|)) && (s.Some? ==> Attaches(secs, s.value))
  {
  }

  // ---------- Opening ----------

  /** The strings the meta section names, and none at all without one. */
  ghost predicate MetaIs(s: Sections, m: Meta) {
    match s.metaRaw
    case None => m == Meta([], [], [])
    case Some(raw) =>
      && MetaFits(s.metaRaw, |s.BlobArena()|) && Part(s.BlobArena(), raw, 0, m.volumeUUID)
      && Part(s.BlobArena(), raw, 8, m.coveredPath) && Part(s.BlobArena(), raw, 16, m.identityAlgo)
  }

  /** text is the stretch of the arena that the offset and length at k give. */
  ghost predicate Part(arena: Bytes, raw: Bytes, k: nat, text: Bytes) {
    && k + 8 <= |raw| && U32At(raw, k) + U32At(raw, k + 4) <= |arena|
    && text == arena[U32At(raw, k)..U32At(raw, k) + U32At(raw, k + 4)]
  }

  lemma MetaLoads(s: Sections)
    requires s.Usable()
    ensures LoadMeta(s).Some? <==> MetaFits(s.metaRaw, |s.BlobArena()|)
    ensures LoadMeta(s).Some? ==> MetaIs(s, LoadMeta(s).value)
  {
    hide U32At;
    if s.metaRaw.Some? {
      var raw := s.metaRaw.value;
      assert MetaFits(s.metaRaw, |s.BlobArena()|) <==>
        U32At(raw, 8 * 0) + U32At(raw, 8 * 0 + 4) <= |s.BlobArena()|
        && U32At(raw, 8 * 1) + U32At(raw, 8 * 1 + 4) <= |s.BlobArena()|
        && U32At(raw, 8 * 2) + U32At(raw, 8 * 2 + 4) <= |s.BlobArena()|;
    }
  }

  ghost predicate TableInside(h: Header, size: nat) {
    h.headerLen + h.sectionCount * SECTION_ENTRY_LEN <= size
  }

  lemma HeaderExactly(b: Bytes)
    ensures HeaderFits(b) <==> DecodeHeader(b).Ok? && TableInside(DecodeHeader(b).value, |b|)
    ensures DecodeHeader(b) == Err(FormatVersion) <==> |b| >= 64 && b[..8] == MAGIC_WORD && U16At(b, 8) != 1
    ensures DecodeHeader(b).Ok? ==> |b| >= 64
    ensures DecodeHeader(b).Ok? ==> DecodeHeader(b).value.headerLen == U16At(b, 12)
    ensures DecodeHeader(b).Ok? ==> DecodeHeader(b).value.sectionCount == U16At(b, 14)
  {
    hide U16At, U32At, U64At;
  }

  /** The section under a number has this data, or nothing names it and this is empty. */
  ghost predicate SectionHas(b: Bytes, id: u32, data: Bytes)
    requires HeaderFits(b) && EntriesFit(b)
  {
    SectionIs(b, id, Some(data)) || (SectionIs(b, id, None) && data == [])
  }

  ghost predicate SectionsAre(b: Bytes, s: Sections)
    requires HeaderFits(b) && EntriesFit(b)
  {
    && SectionHas(b, 1, s.names) && SectionHas(b, 2, s.edges) && SectionHas(b, 3, s.nodes) && SectionHas(b, 4, s.chunks)
    && SectionHas(b, 5, s.inline) && SectionHas(b, 6, s.xattrs) && SectionHas(b, 7, s.symlinks)
    && SectionHas(b, 8, s.nested) && SectionHas(b, 9, s.identities)
    && SectionIs(b, 10, s.blobs) && SectionIs(b, 11, s.metaRaw)
  }

  /** The metadata's strings lie within the blob arena, whichever entries those two are. */
  ghost predicate MetaHolds(b: Bytes)
    requires HeaderFits(b) && EntriesFit(b)
  {
    forall meta, blobs :: SectionIs(b, 11, meta) && SectionIs(b, 10, blobs) ==> MetaFits(meta, |Plain(blobs)|)
  }

  /** The table as read and the entries as they lie. */
  ghost predicate TableIs(b: Bytes, secs: seq<Sec>)
    requires HeaderFits(b)
  {
    |secs| == U16At(b, 14) && forall i: nat :: i < |secs| ==>
      && OffAt(b, i) + LenAt(b, i) <= |b| && secs[i] == Sec(IdAt(b, i), b[OffAt(b, i)..OffAt(b, i) + LenAt(b, i)])
  }

  lemma LastIs(b: Bytes, secs: seq<Sec>, id: u32)
    requires HeaderFits(b) && EntriesFit(b) && TableIs(b, secs)
    ensures forall data :: SectionIs(b, id, data) <==> data == LastData(secs, id)
  {
    hide IdAt, OffAt, LenAt, LastData, U16At;
    LastDataIs(secs, id);
    var last := LastData(secs, id);
    if last.Some? {
      var i :| LastAt(secs, id, last.value, i);
      assert LastUnder(b, id, i);
      forall j: nat | LastUnder(b, id, j)
        ensures j == i
      {
        assert secs[j].id == id;
      }
      assert secs[i].id == IdAt(b, i);
    } else {
      forall i: nat | i < U16At(b, 14)
        ensures IdAt(b, i) != id
      {
        assert secs[i].id == IdAt(b, i);
      }
    }
  }

  lemma AllLast(b: Bytes, secs: seq<Sec>, s: Sections)
    requires HeaderFits(b) && EntriesFit(b) && TableIs(b, secs) && Attaches(secs, s)
    ensures SectionsAre(b, s)
    ensures MetaHolds(b) <==> MetaFits(s.metaRaw, |s.BlobArena()|)
  {
    hide HeaderFits, SectionIs, LastData, EntriesFit, TableIs, MetaFits;
    forall id: u32
      ensures forall data :: SectionIs(b, id, data) <==> data == LastData(secs, id)
    {
      LastIs(b, secs, id);
    }
    BlobsPlain(s);
    assert SectionIs(b, 11, s.metaRaw) && SectionIs(b, 10, s.blobs);
  }

  lemma BlobsPlain(s: Sections)
    ensures s.BlobArena() == Plain(s.blobs)
  {
  }

  /**
    Exactly the blobs that open: format 1, the table and every section it names inside, aligned and of a
    length its records fit, the metadata's strings inside the arena.  What opens is, under each number,
    the last section that goes by it.  Anything else is corrupt, but for a foreign major version.
   */
  lemma OpensExactly(b: Bytes)
    requires ArenasFit(b)
    ensures Parse(b).Ok? <==> HeaderFits(b) && EntriesFit(b) && MetaHolds(b)
    ensures Parse(b).Ok? ==> SectionsAre(b, Parse(b).value.sec) && MetaIs(Parse(b).value.sec, Parse(b).value.meta)
    ensures Parse(b).Err? ==>
      (Parse(b).error == FormatVersion <==> |b| >= 64 && b[..8] == MAGIC_WORD && U16At(b, 8) != 1)
  {
    hide DecodeHeader, ReadTable, AttachAll, LoadMeta, IdAt, OffAt, LenAt, LengthFits, SectionsAre, MetaHolds, MetaIs,
         MetaFits, Attaches, U16At;
    HeaderExactly(b);
    if HeaderFits(b) {
      TableExactly(b, U16At(b, 14));
      TableOpens(b);
    }
  }

  lemma TableOpens(b: Bytes)
    requires ArenasFit(b) && HeaderFits(b)
    ensures Parse(b).Ok? <==> EntriesFit(b) && MetaHolds(b)
    ensures Parse(b).Ok? ==> SectionsAre(b, Parse(b).value.sec) && MetaIs(Parse(b).value.sec, Parse(b).value.meta)
    ensures Parse(b) != Err(FormatVersion)
  {
    hide DecodeHeader, ReadTable, AttachAll, LoadMeta, IdAt, OffAt, LenAt, LengthFits, SectionsAre, MetaHolds, MetaIs,
         MetaFits, Attaches, U16At, HeaderFits;
    HeaderExactly(b);
    var n := U16At(b, 14);
    TableExactly(b, n);
    var table := ReadTable(b, U16At(b, 12), n);
    if EntriesFit(b) {
      forall i: nat | i < n
        ensures OffAt(b, i) % 8 == 0 && OffAt(b, i) + LenAt(b, i) <= |b|
      {
        assert EntryFits(b, i);
      }
    }
    if table.Some? {
      var secs := table.value;
      AttachesExactly(secs);
      assert TableIs(b, secs);
      LengthsAre(b, secs);
      if AttachAll(secs).Some? {
        var s := AttachAll(secs).value;
        AttachAllShaped(secs);
        AllLast(b, secs, s);
        MetaLoads(s);
      }
    }
  }

  lemma LengthsAre(b: Bytes, secs: seq<Sec>)
    requires HeaderFits(b) && TableIs(b, secs) && forall i: nat :: i < |secs| ==> OffAt(b, i) % 8 == 0
    ensures EntriesFit(b) <==> forall i :: 0 <= i < |secs| ==> LengthFits(secs[i].id, |secs[i].data|)
  {
    hide HeaderFits, IdAt, OffAt, LenAt, LengthFits;
    forall i: nat | i < |secs|
      ensures EntryFits(b, i) <==> LengthFits(secs[i].id, |secs[i].data|)
    {
    }
  }
}
