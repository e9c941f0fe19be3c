/**
  The identity index fsck resolves chunks against: one fixed-width record for every entry of every
  verified pack, sorted by identity, with duplicate placements kept side by side.
 */
module PackIndex {
  import opened Arithmetic
  import opened Bytes
  import opened LittleEndian
  import opened Records
  import opened MergeHeap
  import opened ExtSorter
  import opened ExtTable

  const ID_LEN := 32
  const LOC_REC_LEN := 52

  datatype PackLoc = PackLoc(pack: Bytes, off: i64, length: i64)

  // ---------- Records ----------

  function LocFields(pack: u32, off: i64, length: i64): seq<Field> {
    [Field(pack, 4), Field(ToU64(off), 8), Field(ToU64(length), 8)]
  }

  lemma LocStarts(pack: u32, off: i64, length: i64)
    ensures var fs := LocFields(pack, off, length);
      Start(fs, 0) == 0 && Start(fs, 1) == 4 && Start(fs, 2) == 12 && Start(fs, 3) == 20 && Fits(fs)
  {
    Ranges();
  }

  function PutLoc(id: Bytes, pack: u32, off: i64, length: i64): (rec: Bytes)
    requires |id| == ID_LEN
    ensures |rec| == LOC_REC_LEN
  {
    LocStarts(pack, off, length);
    id + Pack(LocFields(pack, off, length))
  }

  function LengthOf(rec: Bytes): i64
    requires |rec| == LOC_REC_LEN
  {
    I64At(rec, ID_LEN + 12)
  }

  function LocOf(rec: Bytes, packNames: seq<Bytes>): PackLoc
    requires |rec| == LOC_REC_LEN
  {
    var ord := U32At(rec, ID_LEN);
    PackLoc(if ord < |packNames| then packNames[ord] else [], I64At(rec, ID_LEN + 4), LengthOf(rec))
  }

  /** What was put comes back. */
  lemma LocRoundTrip(id: Bytes, pack: u32, off: i64, length: i64, packNames: seq<Bytes>)
    requires |id| == ID_LEN && pack < |packNames|
    ensures var rec := PutLoc(id, pack, off, length);
      rec[..ID_LEN] == id && LengthOf(rec) == length && LocOf(rec, packNames) == PackLoc(packNames[pack], off, length)
  {
    hide Pack, UnLe;
    var fs := LocFields(pack, off, length);
    var rec := PutLoc(id, pack, off, length);
    LocStarts(pack, off, length);
    PackField(fs, 0);
    PackField(fs, 1);
    PackField(fs, 2);
    assert rec[32..36] == Pack(fs)[0..4];
    assert rec[36..44] == Pack(fs)[4..12];
    assert rec[44..52] == Pack(fs)[12..20];
    SignRoundTrip(off);
    SignRoundTrip(length);
    assert rec[..ID_LEN] == id;
  }

  // ---------- Resolving ----------

  ghost predicate Wide(recs: seq<Bytes>) {
    forall i :: 0 <= i < |recs| ==> |recs[i]| == LOC_REC_LEN
  }

  ghost predicate Names(rec: Bytes, id: Bytes) {
    ID_LEN <= |rec| && rec[..ID_LEN] == id
  }

  ghost predicate Indexed(recs: seq<Bytes>, id: Bytes) {
    exists i :: 0 <= i < |recs| && Names(recs[i], id)
  }

  /** Some record places id at this stored length. */
  ghost predicate Placed(recs: seq<Bytes>, id: Bytes, length: i64)
    requires Wide(recs)
  {
    exists i :: 0 <= i < |recs| && Names(recs[i], id) && LengthOf(recs[i]) == length
  }

  /** at is the first record of id: the stable name duplicate placements share. */
  ghost predicate FirstOf(recs: seq<Bytes>, id: Bytes, at: nat) {
    at < |recs| && Names(recs[at], id) && forall k :: 0 <= k < at ==> !Names(recs[k], id)
  }

  lemma FirstIsUnique(recs: seq<Bytes>, id: Bytes, a: nat, other: Bytes, b: nat)
    requires FirstOf(recs, id, a) && FirstOf(recs, other, b)
    ensures a == b <==> id == other
  {
  }

  class Index {
    const table: Table
    const packNames: seq<Bytes>

    constructor (table: Table, packNames: seq<Bytes>)
      requires table.Valid() && table.keyLen == ID_LEN && table.recLen == LOC_REC_LEN
      ensures Valid() && this.table == table && this.packNames == packNames
    {
      this.table := table;
      this.packNames := packNames;
      new;
      SplitWidths(table.data, table.recLen);
    }

    ghost predicate Valid()
      reads this, table
    {
      table.Valid() && table.keyLen == ID_LEN && table.recLen == LOC_REC_LEN && Wide(Recs())
    }

    ghost function Recs(): seq<Bytes>
      reads this, table
    {
      table.Recs()
    }

    /**
      Resolves an identity, preferring a placement of the wanted stored length: it finds one exactly
      when there is one, and falls back on the first placement otherwise.
     */
    method Locate(id: Bytes, wantLen: i64) returns (loc: PackLoc, at: nat, ok: bool)
      requires Valid()
      ensures ok <==> Indexed(Recs(), id)
      ensures !ok ==> loc == PackLoc([], 0, 0) && at == 0
      ensures ok ==> FirstOf(Recs(), id, at)
      ensures ok ==> (loc.length == wantLen <==> Placed(Recs(), id, wantLen))
      ensures ok ==> exists i :: at <= i < |Recs()| && Names(Recs()[i], id) && loc == LocOf(Recs()[i], packNames)
      ensures ok && loc.length != wantLen ==> loc == LocOf(Recs()[at], packNames)
    {
      hide LocOf, LengthOf, Table.Recs;
      ghost var recs := Recs();
      var rec, first, n := table.Lookup(id);
      at := first;
      assert forall k :: 0 <= k < |recs| ==> (Names(recs[k], id) <==> at <= k < at + n);
      if n == 0 {
        return PackLoc([], 0, 0), 0, false;
      }
      assert Names(recs[at], id);
      var i := at;
      while i < at + n
        invariant at <= i <= at + n
        invariant forall k :: at <= k < i ==> LengthOf(recs[k]) != wantLen
      {
        loc := DecodeLoc(i);
        if loc.length == wantLen {
          LocLength(recs[i], packNames);
          assert Names(recs[i], id);
          return loc, at, true;
        }
        LocLength(recs[i], packNames);
        i := i + 1;
      }
      loc := DecodeLoc(at);
      LocLength(recs[at], packNames);
      return loc, at, true;
    }

    function DecodeLoc(i: nat): (loc: PackLoc)
      requires Valid() && i < table.n
      reads this, table
      ensures loc == LocOf(Recs()[i], packNames)
    {
      LocOf(table.At(i), packNames)
    }
  }

  lemma LocLength(rec: Bytes, packNames: seq<Bytes>)
    requires |rec| == LOC_REC_LEN
    ensures LocOf(rec, packNames).length == LengthOf(rec)
  {
  }

  // ---------- Building the index ----------

  /** A trailer entry; a key that is not a 32-byte identity indexes nothing. */
  datatype Entry = Entry(id: Option<Bytes>, off: i64, length: i64)

  /** What the federation has of one listed pack. */
  datatype Trailer = Unreadable | BadTrailer(resized: bool) | Readable(resized: bool, entries: seq<Entry>)

  datatype Listed = Listed(name: Bytes, pack: Trailer)

  datatype PackFault = MissingPack | PackSize | PackTrailer

  /** What is wrong, and with which pack. */
  datatype Finding = Finding(fault: PackFault, pack: Bytes)

  ghost predicate GoodKeys(es: seq<Entry>) {
    forall i :: 0 <= i < |es| && es[i].id.Some? ==> |es[i].id.value| == ID_LEN
  }

  /** The records one pack contributes. */
  ghost function EntryRecords(es: seq<Entry>, ord: u32): (rs: seq<Bytes>)
    requires GoodKeys(es)
    ensures Wide(rs)
  {
    if es == [] then []
    else
      var e := es[|es| - 1];
      EntryRecords(es[..|es| - 1], ord) + (if e.id.None? then [] else [PutLoc(e.id.value, ord, e.off, e.length)])
  }

  ghost predicate GoodPacks(packs: seq<Listed>) {
    |packs| < U32_RANGE && forall i :: 0 <= i < |packs| && packs[i].pack.Readable? ==> GoodKeys(packs[i].pack.entries)
  }

  ghost function ReadablePacks(packs: seq<Listed>): (good: seq<Listed>)
    ensures |good| <= |packs| && forall i :: 0 <= i < |good| ==> good[i].pack.Readable?
    ensures forall p :: p in good <==> p in packs && p.pack.Readable?
  {
    if packs == [] then []
    else
      var last := packs[|packs| - 1];
      assert packs == packs[..|packs| - 1] + [last];
      ReadablePacks(packs[..|packs| - 1]) + (if last.pack.Readable? then [last] else [])
  }

  ghost function NamesOf(good: seq<Listed>): (names: seq<Bytes>)
    ensures |names| == |good| && forall i :: 0 <= i < |good| ==> names[i] == good[i].name
  {
    seq(|good|, i requires 0 <= i < |good| => good[i].name)
  }

  /** Everything to be indexed: pack after pack, each under its ordinal among the readable ones. */
  ghost function AllRecords(good: seq<Listed>): (rs: seq<Bytes>)
    requires GoodPacks(good) && forall i :: 0 <= i < |good| ==> good[i].pack.Readable?
    ensures Wide(rs)
  {
    if good == [] then []
    else
      var n := |good| - 1;
      AllRecords(good[..n]) + EntryRecords(good[n].pack.entries, n)
  }

  lemma ReadableGood(packs: seq<Listed>)
    requires GoodPacks(packs)
    ensures GoodPacks(ReadablePacks(packs))
  {
    var good := ReadablePacks(packs);
    forall i | 0 <= i < |good|
      ensures GoodKeys(good[i].pack.entries)
    {
      assert good[i] in packs;
    }
  }

  /** What each listed pack is reported for: being gone, having changed size, or a trailer that is not one. */
  ghost function FindingsOf(packs: seq<Listed>): seq<Finding> {
    if packs == [] then []
    else FindingsOf(packs[..|packs| - 1]) + PackFindings(packs[|packs| - 1])
  }

  ghost function PackFindings(p: Listed): seq<Finding> {
    match p.pack
    case Unreadable => [Finding(MissingPack, p.name)]
    case BadTrailer(resized) => SizeFindings(p.name, resized) + [Finding(PackTrailer, p.name)]
    case Readable(resized, entries) => SizeFindings(p.name, resized) + KeyFindings(p.name, entries)
  }

  ghost function SizeFindings(name: Bytes, resized: bool): seq<Finding> {
    if resized then [Finding(PackSize, name)] else []
  }

  /** One for every key that is no identity. */
  ghost function KeyFindings(name: Bytes, entries: seq<Entry>): seq<Finding> {
    if entries == [] then []
    else KeyFindings(name, entries[..|entries| - 1])
           + if entries[|entries| - 1].id.None? then [Finding(PackTrailer, name)] else []
  }

  /** The pack has this fault. */
  ghost predicate AtFault(p: Listed, fault: PackFault) {
    match fault
    case MissingPack => p.pack.Unreadable?
    case PackSize => !p.pack.Unreadable? && p.pack.resized
    case PackTrailer => p.pack.BadTrailer? || (p.pack.Readable? && OddKeys(p.pack.entries) != {})
  }

  ghost function OddKeys(entries: seq<Entry>): set<nat> {
    set k: nat | k < |entries| && entries[k].id.None?
  }

  lemma {:induction false} KeyFindingsAre(name: Bytes, entries: seq<Entry>)
    ensures |KeyFindings(name, entries)| == |OddKeys(entries)|
    ensures forall f :: f in KeyFindings(name, entries) ==> f == Finding(PackTrailer, name)
  {
    if entries != [] {
      var n := |entries| - 1;
      KeyFindingsAre(name, entries[..n]);
      var before := OddKeys(entries[..n]);
      assert n !in before && OddKeys(entries) == if entries[n].id.None? then before + {n} else before;
    } else {
      assert OddKeys(entries) == {};
    }
  }

  lemma PackFindingsAre(p: Listed, f: Finding)
    ensures f in PackFindings(p) <==> f.pack == p.name && AtFault(p, f.fault)
  {
    if p.pack.Readable? {
      KeyFindingsAre(p.name, p.pack.entries);
      var keys := KeyFindings(p.name, p.pack.entries);
      assert keys != [] ==> keys[0] in keys;
    }
  }

  /** A pack is reported exactly for its own faults, and once for every key that is no identity. */
  lemma {:induction false} PacksReported(packs: seq<Listed>, f: Finding)
    ensures f in FindingsOf(packs) <==> exists i :: 0 <= i < |packs| && packs[i].name == f.pack && AtFault(packs[i], f.fault)
  {
    hide AtFault, PackFindings;
    if packs != [] {
      var n := |packs| - 1;
      PacksReported(packs[..n], f);
      PackFindingsAre(packs[n], f);
      assert forall i :: 0 <= i < n ==> packs[..n][i] == packs[i];
    }
  }

  lemma NothingFound(packs: seq<Listed>)
    ensures FindingsOf(packs[..0]) == []
  {
  }

  lemma FindingsStep(packs: seq<Listed>, i: nat)
    requires i < |packs|
    ensures FindingsOf(packs[..i + 1]) == FindingsOf(packs[..i]) + PackFindings(packs[i])
  {
    assert packs[..i + 1][..i] == packs[..i];
  }

  /**
    checkPacks: every entry of every pack that can be read and verified is indexed, the others are
    reported; a failure of the sort itself yields no index at all.
   */
  method CheckPacks(packs: seq<Listed>, budget: int, fuse: nat -> Option<nat>)
    returns (index: Option<Index>, problems: seq<Finding>, verified: nat)
    requires GoodPacks(packs)
    ensures verified == |ReadablePacks(packs)|
    ensures problems == FindingsOf(packs) && (problems == [] ==> verified == |packs|)
    ensures (forall i: nat :: fuse(i).None?) ==> index.Some?
    ensures index.Some? ==>
      && GoodPacks(ReadablePacks(packs)) && fresh(index.value) && fresh(index.value.table) && index.value.Valid()
      && multiset(index.value.Recs()) == multiset(AllRecords(ReadablePacks(packs)))
      && index.value.packNames == NamesOf(ReadablePacks(packs))
  {
    hide Split, Bag, Sorter.Accepted, Sorter.Valid, AllRecords, EntryRecords, ReadablePacks, NamesOf, GoodPacks, Whole, Join,
         FindingsOf, KeyFindings;
    var sorter := new Sorter(ID_LEN, LOC_REC_LEN, budget);
    var packNames: seq<Bytes> := [];
    problems, verified := [], 0;
    NothingListed(packs);
    assert problems == FindingsOf(packs[..0]) by { NothingFound(packs); }
    for i := 0 to |packs|
      invariant fresh(sorter) && sorter.Valid() && !sorter.done
      invariant sorter.recLen == LOC_REC_LEN && sorter.keyLen == ID_LEN
      invariant GoodPacks(packs[..i]) && GoodPacks(ReadablePacks(packs[..i]))
      invariant packNames == NamesOf(ReadablePacks(packs[..i])) && verified == |packNames|
      invariant problems == FindingsOf(packs[..i]) && (problems == [] ==> verified == i)
      invariant sorter.Accepted() == multiset(AllRecords(ReadablePacks(packs[..i])))
    {
      FindingsStep(packs, i);
      ReadableStep(packs, i);
      ReadableGood(packs[..i + 1]);
      match packs[i].pack
      case Unreadable =>
        problems := problems + [Finding(MissingPack, packs[i].name)];
      case BadTrailer(resized) =>
        if resized {
          problems := problems + [Finding(PackSize, packs[i].name)];
        }
        problems := problems + [Finding(PackTrailer, packs[i].name)];
      case Readable(resized, entries) =>
        var ord := |packNames|;
        verified := verified + 1;
        packNames := packNames + [packs[i].name];
        NamesStep(ReadablePacks(packs[..i]), packs[i]);
        AllRecordsStep(ReadablePacks(packs[..i]), packs[i]);
        var found := IndexPack(sorter, packs[i].name, resized, entries, ord);
        problems := problems + found;
        BatchMultiset(AllRecords(ReadablePacks(packs[..i])), EntryRecords(entries, ord));
    }
    assert packs[..|packs|] == packs;
    var table := Materialise(sorter, fuse);
    if table.None? {
      return None, problems, verified;
    }
    var made := new Index(table.value, packNames);
    index := Some(made);
  }

  lemma BatchMultiset(a: seq<Bytes>, b: seq<Bytes>)
    ensures multiset(a + b) == multiset(a) + multiset(b)
  {
  }

  lemma NothingListed(packs: seq<Listed>)
    ensures GoodPacks([]) && ReadablePacks(packs[..0]) == [] && NamesOf([]) == [] && AllRecords([]) == []
  {
  }

  lemma ReadableStep(packs: seq<Listed>, i: nat)
    requires i < |packs| && GoodPacks(packs)
    ensures i < U32_RANGE && GoodPacks(packs[..i + 1])
    ensures ReadablePacks(packs[..i + 1]) ==
            if packs[i].pack.Readable? then ReadablePacks(packs[..i]) + [packs[i]] else ReadablePacks(packs[..i])
  {
    assert packs[..i + 1][..i] == packs[..i];
    assert ReadablePacks(packs[..i]) + [] == ReadablePacks(packs[..i]);
  }

  lemma NamesStep(good: seq<Listed>, p: Listed)
    ensures NamesOf(good + [p]) == NamesOf(good) + [p.name]
  {
  }

  lemma AllRecordsStep(good: seq<Listed>, p: Listed)
    requires GoodPacks(good + [p]) && p.pack.Readable? && forall i :: 0 <= i < |good| ==> good[i].pack.Readable?
    ensures GoodPacks(good) && GoodKeys(p.pack.entries)
    ensures AllRecords(good + [p]) == AllRecords(good) + EntryRecords(p.pack.entries, |good|)
  {
    hide EntryRecords, GoodKeys;
    assert (good + [p])[..|good|] == good;
    forall i | 0 <= i < |good|
      ensures GoodKeys(good[i].pack.entries)
    {
      assert (good + [p])[i] == good[i];
    }
    assert (good + [p])[|good|] == p;
  }

  /** Indexes one verified pack; hands back what is to be said of it. */
  method IndexPack(sorter: Sorter, name: Bytes, resized: bool, entries: seq<Entry>,
                   ord: u32) returns (found: seq<Finding>)
    requires GoodKeys(entries) && sorter.Valid() && !sorter.done
    requires sorter.recLen == LOC_REC_LEN && sorter.keyLen == ID_LEN
    modifies sorter
    ensures sorter.Valid() && !sorter.done
    ensures sorter.Accepted() == old(sorter.Accepted()) + multiset(EntryRecords(entries, ord))
    ensures found == SizeFindings(name, resized) + KeyFindings(name, entries)
  {
    hide Sorter.Accepted, EntryRecords, Sorter.Valid, KeyFindings;
    found := if resized then [Finding(PackSize, name)] else [];
    var odd := AddPack(sorter, name, entries, ord);
    found := found + odd;
  }

  method AddPack(sorter: Sorter, name: Bytes, entries: seq<Entry>, ord: u32) returns (odd: seq<Finding>)
    requires GoodKeys(entries) && sorter.Valid() && !sorter.done
    requires sorter.recLen == LOC_REC_LEN && sorter.keyLen == ID_LEN
    modifies sorter
    ensures sorter.Valid() && !sorter.done
    ensures sorter.Accepted() == old(sorter.Accepted()) + multiset(EntryRecords(entries, ord))
    ensures odd == KeyFindings(name, entries)
  {
    hide Split, Bag, Sorter.Accepted, EntryRecords, Whole, Sorter.Valid, KeyFindings;
    var batch;
    batch, odd := Batch(name, entries, ord);
    var err := sorter.Add(batch);
  }

  /** The records of one pack, back to back; entries whose key is no identity are only reported. */
  method Batch(name: Bytes, entries: seq<Entry>, ord: u32) returns (batch: Bytes, odd: seq<Finding>)
    requires GoodKeys(entries)
    ensures Whole(batch, LOC_REC_LEN) && Split(batch, LOC_REC_LEN) == EntryRecords(entries, ord)
    ensures odd == KeyFindings(name, entries)
  {
    hide Split, Whole, EntryRecords;
    batch, odd := [], [];
    EmptyBuffer(LOC_REC_LEN);
    NoEntries(ord);
    for i := 0 to |entries|
      invariant Whole(batch, LOC_REC_LEN) && Split(batch, LOC_REC_LEN) == EntryRecords(entries[..i], ord)
      invariant odd == KeyFindings(name, entries[..i])
    {
      var e := entries[i];
      assert entries[..i + 1][..i] == entries[..i];
      EntryStep(entries, i, ord);
      if e.id.None? {
        odd := odd + [Finding(PackTrailer, name)];
      } else {
        var rec := PutLoc(e.id.value, ord, e.off, e.length);
        OneRecord(batch, rec);
        batch := batch + rec;
      }
    }
    assert entries[..|entries|] == entries;
  }

  lemma NoEntries(ord: u32)
    ensures EntryRecords([], ord) == []
  {
  }

  lemma EntryStep(es: seq<Entry>, i: nat, ord: u32)
    requires GoodKeys(es) && i < |es|
    ensures EntryRecords(es[..i + 1], ord) == EntryRecords(es[..i], ord)
              + (if es[i].id.None? then [] else [PutLoc(es[i].id.value, ord, es[i].off, es[i].length)])
  {
    assert es[..i + 1][..i] == es[..i];
  }

  lemma OneRecord(batch: Bytes, rec: Bytes)
    requires Whole(batch, LOC_REC_LEN) && |rec| == LOC_REC_LEN
    ensures Whole(batch + rec, LOC_REC_LEN)
    ensures Split(batch + rec, LOC_REC_LEN) == Split(batch, LOC_REC_LEN) + [rec]
  {
    SplitAppend(batch, rec, LOC_REC_LEN);
    SplitJoin([rec], LOC_REC_LEN);
    assert Join([rec]) == rec;
    WholeParts(|batch|, |rec|, LOC_REC_LEN);
  }

  // ---------- Any pack will do ----------

  /** Some readable pack stores id at this length. */
  ghost predicate Stored(good: seq<Listed>, id: Bytes, length: i64) {
    exists p, k :: p in good && p.pack.Readable? && 0 <= k < |p.pack.entries|
      && p.pack.entries[k].id == Some(id) && p.pack.entries[k].length == length
  }

  /** Where every record of the index came from. */
  ghost predicate CameFrom(rec: Bytes, good: seq<Listed>, p: nat, k: nat)
    requires |rec| == LOC_REC_LEN
  {
    && p < |good| && good[p].pack.Readable? && k < |good[p].pack.entries|
    && var e := good[p].pack.entries[k];
       e.id == Some(rec[..ID_LEN]) && e.length == LengthOf(rec)
       && LocOf(rec, NamesOf(good)) == PackLoc(good[p].name, e.off, e.length)
  }

  ghost predicate Makes(e: Entry, ord: u32, r: Bytes)
    requires e.id.Some? ==> |e.id.value| == ID_LEN
  {
    e.id.Some? && r == PutLoc(e.id.value, ord, e.off, e.length)
  }

  lemma {:induction false} EntryRecordsAre(es: seq<Entry>, ord: u32, r: Bytes)
    requires GoodKeys(es)
    ensures r in EntryRecords(es, ord) <==> exists k :: 0 <= k < |es| && Makes(es[k], ord, r)
  {
    hide PutLoc;
    if es != [] {
      var n := |es| - 1;
      EntryRecordsAre(es[..n], ord, r);
      assert forall k :: 0 <= k < n ==> Makes(es[..n][k], ord, r) == Makes(es[k], ord, r);
      assert r in EntryRecords(es, ord) <==> r in EntryRecords(es[..n], ord) || Makes(es[n], ord, r);
    }
  }

  lemma {:induction false} AllRecordsAre(good: seq<Listed>, r: Bytes)
    requires GoodPacks(good) && forall i :: 0 <= i < |good| ==> good[i].pack.Readable?
    ensures r in AllRecords(good) <==> exists p :: 0 <= p < |good| && r in EntryRecords(good[p].pack.entries, p)
  {
    hide EntryRecords;
    if good != [] {
      var n := |good| - 1;
      AllRecordsAre(good[..n], r);
      assert forall p :: 0 <= p < n ==> good[..n][p] == good[p];
      assert r in AllRecords(good) <==> r in AllRecords(good[..n]) || r in EntryRecords(good[n].pack.entries, n);
    }
  }

  /** Every record of the index leads back to the pack and entry it came from. */
  lemma RecordsComeFromPacks(good: seq<Listed>, r: Bytes)
    requires GoodPacks(good) && (forall i :: 0 <= i < |good| ==> good[i].pack.Readable?) && r in AllRecords(good)
    ensures |r| == LOC_REC_LEN && exists p, k :: CameFrom(r, good, p, k)
  {
    hide EntryRecords, AllRecords, PutLoc, LocOf, LengthOf;
    AllRecordsAre(good, r);
    var p :| 0 <= p < |good| && r in EntryRecords(good[p].pack.entries, p);
    var es := good[p].pack.entries;
    EntryRecordsAre(es, p, r);
    var k :| 0 <= k < |es| && Makes(es[k], p, r);
    LocRoundTrip(es[k].id.value, p, es[k].off, es[k].length, NamesOf(good));
    assert CameFrom(r, good, p, k);
  }

  /**
    The index places an identity at a stored length exactly when some readable pack does, so a
    chunk is never held against the wrong one of its duplicates.
   */
  lemma PlacedExactly(recs: seq<Bytes>, good: seq<Listed>, id: Bytes, length: i64)
    requires GoodPacks(good) && forall i :: 0 <= i < |good| ==> good[i].pack.Readable?
    requires multiset(recs) == multiset(AllRecords(good)) && Wide(recs)
    ensures Placed(recs, id, length) <==> Stored(good, id, length)
  {
    hide EntryRecords, AllRecords, PutLoc, LocOf, LengthOf;
    if Placed(recs, id, length) {
      var i :| 0 <= i < |recs| && Names(recs[i], id) && LengthOf(recs[i]) == length;
      assert recs[i] in multiset(AllRecords(good));
      RecordsComeFromPacks(good, recs[i]);
      var p: nat, k: nat :| CameFrom(recs[i], good, p, k);
      assert good[p] in good;
    }
    if Stored(good, id, length) {
      StoredPlaced(recs, good, id, length);
    }
  }

  lemma StoredPlaced(recs: seq<Bytes>, good: seq<Listed>, id: Bytes, length: i64)
    requires GoodPacks(good) && forall i :: 0 <= i < |good| ==> good[i].pack.Readable?
    requires multiset(recs) == multiset(AllRecords(good)) && Wide(recs) && Stored(good, id, length)
    ensures Placed(recs, id, length)
  {
    hide EntryRecords, AllRecords, PutLoc, LocOf, LengthOf;
    var l, k :| l in good && l.pack.Readable? && 0 <= k < |l.pack.entries|
      && l.pack.entries[k].id == Some(id) && l.pack.entries[k].length == length;
    var p :| 0 <= p < |good| && good[p] == l;
    var e := l.pack.entries[k];
    assert GoodKeys(l.pack.entries);
    var r := PutLoc(id, p, e.off, e.length);
    EntryRecordsAre(l.pack.entries, p, r);
    assert Makes(e, p, r);
    AllRecordsAre(good, r);
    assert r in multiset(recs);
    var i :| 0 <= i < |recs| && recs[i] == r;
    LocRoundTrip(id, p, e.off, e.length, NamesOf(good));
    assert Names(recs[i], id);
  }
}
