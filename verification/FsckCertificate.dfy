/** The whole check, and what a check without a finding certifies about a volume. */
module FsckCertificate {
  import opened Bytes
  import opened LittleEndian
  import opened CatalogRecords
  import opened StaticQueries
  import PackIndex
  import opened FsckVolume
  import opened FsckReport
  import opened FsckTrail
  import opened FsckSteps
  import opened FsckTally
  import opened FsckQueue
  import opened FsckContent
  import opened FsckFaults
  import opened FsckFindings
  import opened FsckWalk

  /** Where a walk that found nothing leaves a volume. */
  ghost predicate Certified(vol: Volume, recs: seq<Bytes>, t: Trail, checked: seq<Checked>)
    requires PackIndex.Wide(recs)
  {
    && Over(t, vol) && t.cycles == 0 && vol.root in t.starts && t.starts[vol.root] == ROOT_INODE
    && StartsLanded(vol, t.via.Keys, t.starts) && CatalogsSound(t, vol) && ShardsOk(vol)
    && (forall s :: s in t.finished ==> DirOk(vol.Opened(s.id).value, s.ino))
    && forall i :: 0 <= i < |checked| ==> CheckedSound(vol, recs, checked[i])
  }

  /** No look has found anything. */
  ghost predicate AllSilent(vol: Volume, recs: seq<Bytes>, t: Trail)
    requires PackIndex.Wide(recs)
  {
    forall look :: look in t.told ==> Findings(vol, recs, look) == []
  }

  /**
    The whole check over an index already built: the root is opened, every shard, then the walk.  What
    it reports are causes, whether or not it completes; if it does, every fault of anything it has met
    is reported at its place and by its kind, so it is clean exactly when nothing it met is at fault,
    and then it certifies the volume.  The volume is as fetched (FsckFetches).
   */
  method Check(vol: Volume, index: PackIndex.Index, alive: nat -> bool) returns (w: Option<Walker>, complete: bool)
    requires index.Valid()
    ensures (forall i: nat :: alive(i)) ==> (complete <==> vol.Opened(vol.root).Some?)
    ensures (complete ==> w.Some?) && (w.Some? <==> vol.Opened(vol.root).Some?)
    ensures w.Some? ==> (complete <==> forall i: nat :: i < |w.value.queue| ==> alive(i))
    ensures w.Some? ==> w.value.Valid() && w.value.c.index == index && w.value.c.vol == vol
    ensures w.Some? ==> w.value.InOrder() && w.value.begun != [] && w.value.begun[0] == vol.root
    ensures w.Some? ==> vol.root in w.value.starts && w.value.starts[vol.root] == 1
    ensures w.Some? ==>
      forall p :: p in w.value.c.problems ==> Caused(vol, index.Recs(), w.value.Now(), w.value.checked, p)
    ensures w.Some? && !w.value.c.Clean() ==> Faulty(vol, index.Recs(), w.value.Now(), w.value.checked)
    ensures complete ==>
      && EverythingFound(vol, index.Recs(), w.value.Now(), w.value.checked, w.value.c.problems)
      && Over(w.value.Now(), vol) && (w.value.c.Clean() <==> !Faulty(vol, index.Recs(), w.value.Now(), w.value.checked))
    ensures complete && w.value.c.Clean() ==> Certified(vol, index.Recs(), w.value.Now(), w.value.checked)
    ensures w.Some? && SoundVolume(vol, index.Recs()) ==> w.value.c.Clean()
  {
    hide Contents.MarksOk, Contents.CacheOk, Over, Walker.Valid, SoundVolume, Faulty, StartsLanded, Walker.InOrder,
         ObjectFindings, ShardsFindings, AllLooked, EverythingFound, Caused, Certified;
    var c := new Contents(vol, index);
    var root := c.OpenObject(vol.root, InTree([]), MissingCatalog, BadCatalog);
    if root.None? {
      return None, false;
    }
    c.CheckShards();
    var walker := new Walker(c);
    complete := walker.Walk(root.value, alive);
    FoundAndCaused(walker, complete);
    w := Some(walker);
  }

  /** What the accounts a walk leaves say of its findings. */
  lemma FoundAndCaused(w: Walker, complete: bool)
    requires w.Valid() && w.c.vol.root in w.starts && w.starts[w.c.vol.root] == ROOT_INODE
    requires complete ==> Over(w.Now(), w.c.vol) && AllLooked(w.Now(), w.c.vol)
    ensures w.c.index.Valid() && forall p :: p in w.c.problems ==> Caused(w.c.vol, w.c.Recs(), w.Now(), w.checked, p)
    ensures !w.c.Clean() ==> Faulty(w.c.vol, w.c.Recs(), w.Now(), w.checked)
    ensures complete ==> EverythingFound(w.c.vol, w.c.Recs(), w.Now(), w.checked, w.c.problems)
    ensures complete ==> (w.c.Clean() <==> !Faulty(w.c.vol, w.c.Recs(), w.Now(), w.checked))
    ensures complete && w.c.Clean() ==> Certified(w.c.vol, w.c.Recs(), w.Now(), w.checked)
    ensures SoundVolume(w.c.vol, w.c.Recs()) ==> w.c.Clean()
  {
    hide Walker.Valid, SoundVolume, Faulty, StartsLanded, Tale, AllLooked, EverythingFound, Caused, Certified, Over, Heard,
         Accounted, Walker.Tallied, Walker.Met, Walker.FilesChecked, AllSilent, Anchored;
    w.Accounts();
    var vol, recs, t, problems := w.c.vol, w.c.Recs(), w.Now(), w.c.problems;
    TaleAccounts(vol, recs, t, w.trace);
    forall p | p in problems
      ensures Caused(vol, recs, t, w.checked, p)
    {
      FindingsHaveCauses(vol, recs, t, w.checked, problems, p);
    }
    SilentLooks(vol, recs, t, w.trace);
    NoReturns(w.trace);
    if !w.c.Clean() {
      UncleanIsFaulty(vol, recs, t, w.checked);
    }
    if complete {
      OverSettled(t, vol);
      FaultsAreFound(vol, recs, t, w.checked, problems);
      if w.c.Clean() {
        w.Files();
        SilentCertified(vol, recs, t, w.checked);
        CertifiedNoFault(vol, recs, t, w.checked);
      }
    }
    if SoundVolume(vol, recs) {
      SoundNotFaulty(vol, recs, t, w.Counts());
    }
  }

  lemma OverSettled(t: Trail, vol: Volume)
    requires Over(t, vol)
    ensures Settled(t, vol)
  {
  }

  lemma SilentLooks(vol: Volume, recs: seq<Bytes>, t: Trail, looks: seq<Look>)
    requires PackIndex.Wide(recs) && t.told == set look | look in looks
    ensures Tale(vol, recs, looks) == [] <==> AllSilent(vol, recs, t)
  {
    hide Findings, Tale;
    Silent(vol, recs, looks);
  }

  lemma UncleanIsFaulty(vol: Volume, recs: seq<Bytes>, t: Trail, checked: seq<Checked>)
    requires PackIndex.Wide(recs) && !AllSilent(vol, recs, t) && Heard(vol, t, checked) && vol.root in t.starts
    ensures Faulty(vol, recs, t, checked)
  {
    hide Findings, About, Faulty;
    var look :| look in t.told && Findings(vol, recs, look) != [];
    FindingIsFault(vol, recs, t, checked, look);
  }

  /** A complete check of which no look found anything certifies the volume. */
  lemma SilentCertified(vol: Volume, recs: seq<Bytes>, t: Trail, checked: seq<Checked>)
    requires PackIndex.Wide(recs) && AllSilent(vol, recs, t) && Over(t, vol) && AllLooked(t, vol)
    requires vol.root in t.starts && t.starts[vol.root] == ROOT_INODE && StartsLanded(vol, t.via.Keys, t.starts)
    requires t.cycles == 0 <==> forall look :: look in t.told ==> !look.Returning?
    requires forall f :: f in checked ==> FileChecked(vol, f) && exists path :: Reading(f, path) in t.told
    ensures Certified(vol, recs, t, checked)
  {
    hide Findings, Settled, TwoWays, StartsLanded, AllLooked, CatalogsSound, ShardsOk, AllSilent, DirOk, FileOk;
    SilentCatalogs(vol, recs, t);
    SilentWays(vol, recs, t);
    forall s | s in t.finished
      ensures DirOk(vol.Opened(s.id).value, s.ino)
    {
      SilentDir(vol, recs, t, s);
    }
    forall i | 0 <= i < |checked|
      ensures CheckedSound(vol, recs, checked[i])
    {
      var f := checked[i];
      assert f in checked;
      var path :| Reading(f, path) in t.told;
      SilentFile(vol, recs, t, f, path);
    }
  }

  lemma SilentCatalogs(vol: Volume, recs: seq<Bytes>, t: Trail)
    requires PackIndex.Wide(recs) && AllSilent(vol, recs, t) && AllLooked(t, vol) && vol.root in t.starts
    ensures CatalogsSound(t, vol) && ShardsOk(vol)
  {
    hide Findings, ShardsOk, AllLooked;
    RootLooked(t, vol);
    OpeningFinds(vol, recs);
    CatalogFinds(vol, recs, vol.root, []);
    forall id | id in t.starts
      ensures vol.Honest(id) && vol.Opened(id).value.ordered
    {
      SilentCatalog(vol, recs, t, id);
    }
  }

  lemma SilentCatalog(vol: Volume, recs: seq<Bytes>, t: Trail, id: Bytes)
    requires PackIndex.Wide(recs) && AllSilent(vol, recs, t) && AllLooked(t, vol) && id in t.starts
    ensures vol.Honest(id) && vol.Opened(id).value.ordered
  {
    hide Findings, ShardsOk;
    OpeningFinds(vol, recs);
    var path :| CatalogLooked(t, vol, id, path);
    CatalogFinds(vol, recs, id, path);
  }

  lemma SilentWays(vol: Volume, recs: seq<Bytes>, t: Trail)
    requires PackIndex.Wide(recs) && AllSilent(vol, recs, t)
    ensures forall look :: look in t.told ==> !look.Returning?
  {
    hide ObjectFindings, ShardsFindings, FileFindings, EntryFindings;
  }

  lemma SilentDir(vol: Volume, recs: seq<Bytes>, t: Trail, s: Spot)
    requires PackIndex.Wide(recs) && AllSilent(vol, recs, t) && Settled(t, vol) && s in t.finished
    ensures DirOk(vol.Opened(s.id).value, s.ino)
  {
    hide Findings, EntrySilent, Entries, Locators, EntryDone, DirOk;
    assert SpotDone(t, vol, s);
    DirSilent(vol, recs, s, t.at[s]);
    forall k: nat | k < |Entries(vol.Opened(s.id).value, s.ino)|
      ensures EntrySilent(vol, recs, s, k, t.at[s])
    {
      assert EntryDone(t, vol.Opened(s.id).value, s, k);
      SilentEntry(vol, recs, t, s, k);
    }
  }

  lemma SilentEntry(vol: Volume, recs: seq<Bytes>, t: Trail, s: Spot, k: nat)
    requires PackIndex.Wide(recs) && AllSilent(vol, recs, t) && vol.Opened(s.id).Some? && s in t.via && s in t.at
    requires k < |Entries(vol.Opened(s.id).value, s.ino)| && EntryDone(t, vol.Opened(s.id).value, s, k)
    ensures EntrySilent(vol, recs, s, k, t.at[s])
  {
    hide Entries, Locators, TurnOf, NodeFindings;
  }

  lemma SilentFile(vol: Volume, recs: seq<Bytes>, t: Trail, f: Checked, path: seq<Bytes>)
    requires PackIndex.Wide(recs) && AllSilent(vol, recs, t) && Reading(f, path) in t.told && FileChecked(vol, f)
    requires ShardsOk(vol)
    ensures CheckedSound(vol, recs, f)
  {
    hide FileFindings, FileOk, ShardFor, ShardOk;
    var r := vol.Opened(f.id).value;
    FileSilent(vol, recs, r, f.node, InTree(path));
    var sh := ShardFor(vol.shards, ToU64(f.node.inode));
    if sh.Some? {
      ShardOpens(vol, sh.value);
    }
  }

  lemma ShardOpens(vol: Volume, sh: Shard)
    requires ShardsOk(vol) && sh in vol.shards
    ensures vol.Opened(sh.identity).Some?
  {
    var k :| 0 <= k < |vol.shards| && vol.shards[k] == sh;
    assert ShardOk(vol, k);
  }

  lemma CertifiedNoFault(vol: Volume, recs: seq<Bytes>, t: Trail, checked: seq<Checked>)
    requires PackIndex.Wide(recs) && Certified(vol, recs, t, checked)
    ensures !Faulty(vol, recs, t, checked)
  {
    hide DirOk, FileOk, ShardsOk, Settled, Anchored, StartsLanded;
    forall i | 0 <= i < |checked|
      ensures !BadFile(vol, recs, checked[i])
    {
      assert CheckedSound(vol, recs, checked[i]);
    }
  }

  /** The index holds the entries of the readable packs and nothing else. */
  ghost predicate IndexOf(recs: seq<Bytes>, packs: seq<PackIndex.Listed>)
    requires PackIndex.GoodPacks(packs)
  {
    var good := PackIndex.ReadablePacks(packs);
    PackIndex.ReadableGood(packs);
    PackIndex.Wide(recs) && multiset(recs) == multiset(PackIndex.AllRecords(good))
  }

  /** The check from the listed packs on; without a failing device and uncancelled it completes if the root opens. */
  method CheckVolume(vol: Volume, packs: seq<PackIndex.Listed>, budget: int, fuse: nat -> Option<nat>,
                     alive: nat -> bool)
    returns (found: seq<PackIndex.Finding>, w: Option<Walker>, complete: bool)
    requires PackIndex.GoodPacks(packs)
    ensures found == PackIndex.FindingsOf(packs)
    ensures (forall i: nat :: fuse(i).None?) && (forall i: nat :: alive(i)) ==> (complete <==> vol.Opened(vol.root).Some?)
    ensures complete ==> w.Some?
    ensures w.Some? ==> w.value.Valid() && w.value.c.vol == vol && w.value.c.index.Valid() && IndexOf(w.value.c.Recs(), packs)
    ensures w.Some? ==>
      forall p :: p in w.value.c.problems ==> Caused(vol, w.value.c.Recs(), w.value.Now(), w.value.checked, p)
    ensures complete ==>
      && EverythingFound(vol, w.value.c.Recs(), w.value.Now(), w.value.checked, w.value.c.problems)
      && (w.value.c.Clean() <==> !Faulty(vol, w.value.c.Recs(), w.value.Now(), w.value.checked))
    ensures complete && w.value.c.Clean() ==> Certified(vol, w.value.c.Recs(), w.value.Now(), w.value.checked)
    ensures w.Some? && SoundVolume(vol, w.value.c.Recs()) ==> w.value.c.Clean()
  {
    hide Walker.Valid, Certified, SoundVolume, Faulty, PackIndex.GoodPacks, PackIndex.ReadablePacks,
         PackIndex.AllRecords, PackIndex.FindingsOf, Over, Caused, EverythingFound;
    PackIndex.ReadableGood(packs);
    var index, problems, verified := PackIndex.CheckPacks(packs, budget, fuse);
    found := problems;
    if index.None? {
      return found, None, false;
    }
    w, complete := Check(vol, index.value, alive);
  }

  /** So an extent is sound exactly when some readable pack stores its chunk at the length it names. */
  lemma ExtentStored(recs: seq<Bytes>, packs: seq<PackIndex.Listed>, e: FileExtent)
    requires PackIndex.GoodPacks(packs) && IndexOf(recs, packs)
    ensures ExtentOk(recs, e) <==> Sized(e) && (e.identity.Some? ==>
              |e.identity.value| == FsckVolume.ID_LEN
              && PackIndex.Stored(PackIndex.ReadablePacks(packs), e.identity.value, e.clen))
  {
    hide PackIndex.AllRecords, PackIndex.ReadablePacks, PackIndex.GoodPacks, PackIndex.Placed, PackIndex.Stored;
    PackIndex.ReadableGood(packs);
    if e.identity.Some? {
      PackIndex.PlacedExactly(recs, PackIndex.ReadablePacks(packs), e.identity.value, e.clen);
    }
  }

  /**
    What the certificate says of a directory: if it lies below where the descent into its catalog
    began, and a chain of such directories leads to that catalog from the root's, then the catalog
    hashes to its name and is in order, and the directory is sound, every entry having its node and
    every locator its dirent.  Whether that is every directory entries lead to is another question
    (FsckReach).
   */
  lemma CertifiedDirectory(vol: Volume, recs: seq<Bytes>, t: Trail, checked: seq<Checked>, ids: seq<Bytes>,
                           steps: seq<nat>)
    requires PackIndex.Wide(recs) && Certified(vol, recs, t, checked) && Leads(vol, t, ids)
    ensures var id := ids[|ids| - 1];
      && vol.Honest(id) && vol.Opened(id).value.ordered && id in t.starts
      && match Follow(vol.Opened(id).value, t.starts[id], steps)
         case Some(ino) => Spot(id, ino) in t.finished && DirOk(vol.Opened(id).value, ino)
         case None => true
  {
    hide Follow, DirOk, EntriesDone, CheckedSound, StartsLanded;
    var id := ids[|ids| - 1];
    EverythingQueued(t, vol, ids);
    if Follow(vol.Opened(id).value, t.starts[id], steps).Some? {
      EverythingWalked(t, vol, id, steps);
    }
  }

  ghost predicate CheckedSoundly(vol: Volume, recs: seq<Bytes>, checked: seq<Checked>, ino: i64)
    requires PackIndex.Wide(recs)
  {
    exists i :: 0 <= i < |checked| && checked[i].ino == ino && CheckedSound(vol, recs, checked[i])
  }

  /**
    And of a file, that is, of any entry of a directory the certificate covers: its inode was checked
    exactly when it was not counted as a directory, a symlink or something special first.  So it was
    checked if no entry the walk met types it otherwise and it is not the root inode, which counts as
    a directory before the walk begins.
   */
  lemma CertifiedFile(vol: Volume, recs: seq<Bytes>, t: Trail, tally: Tally, s: Spot, k: nat)
    requires PackIndex.Wide(recs) && Certified(vol, recs, t, tally.checked) && s in t.finished
    requires TallyOk(tally) && tally.seen == t.seen && AllMet(vol, t.finished, tally)
    requires vol.Opened(s.id).Some? && k < |Entries(vol.Opened(s.id).value, s.ino)|
    ensures var ino := Entries(vol.Opened(s.id).value, s.ino)[k].inode;
      && (CheckedSoundly(vol, recs, tally.checked, ino) <==> ino !in tally.dirInodes + tally.linkInodes + tally.specials)
      && (ino != ROOT_INODE && !MetOtherwise(vol, t.finished, ino) ==> CheckedSoundly(vol, recs, tally.checked, ino))
      && (ino == ROOT_INODE ==> !CheckedSoundly(vol, recs, tally.checked, ino))
  {
    hide TotalLength, InodesOf, CheckedSound, MetOtherwise, AllMet, Over, CatalogsSound, ShardsOk, Entries,
         StartsLanded;
    var ino := Entries(vol.Opened(s.id).value, s.ino)[k].inode;
    EntrySeen(vol, t, s, k);
    RootIsDir(vol, t.finished, tally);
    if ino != ROOT_INODE && ino in tally.dirInodes + tally.linkInodes + tally.specials {
      CountedOtherwise(vol, t.finished, tally, ino);
    }
    if ino in tally.fileInodes {
      CheckedUnder(tally.checked, ino);
    }
    if i :| 0 <= i < |tally.checked| && tally.checked[i].ino == ino {
      InodesIn(tally.checked, i);
    }
  }

  /**
    Which row of the inode that was: the one entry k leads to, if its catalog is the one the inode was
    checked in, the first begun that lists it.  A row in another catalog need not be sound
    (FsckSecondRow), but is if it is the same row over again and its content is in a shard, as it is
    once a file has several links.
   */
  lemma CertifiedRow(vol: Volume, recs: seq<Bytes>, t: Trail, checked: seq<Checked>, s: Spot, k: nat, n: Node, i: nat)
    requires PackIndex.Wide(recs) && Certified(vol, recs, t, checked)
    requires i < |checked| && EntryIs(vol, s, k, checked[i].ino, n)
    requires checked[i].id == s.id || (checked[i].node == n && n.nlink > 1)
    ensures checked[i].node == n && FileOk(vol, recs, vol.Opened(s.id).value, n)
  {
    hide Over, CatalogsSound, ShardsOk, StartsLanded, ContentOk, Entries;
    assert CheckedSound(vol, recs, checked[i]);
  }

  lemma RootIsDir(vol: Volume, entered: set<Spot>, tally: Tally)
    requires AllMet(vol, entered, tally)
    ensures ROOT_INODE in tally.dirInodes
  {
  }

  /** No entry of a directory finished without a finding was passed over. */
  lemma EntrySeen(vol: Volume, t: Trail, s: Spot, k: nat)
    requires Over(t, vol) && s in t.finished && vol.Opened(s.id).Some? && DirOk(vol.Opened(s.id).value, s.ino)
    requires k < |Entries(vol.Opened(s.id).value, s.ino)|
    ensures Entries(vol.Opened(s.id).value, s.ino)[k].inode in t.seen
  {
    hide EntryOk, Entries, Locators, TurnOf;
    assert SpotDone(t, vol, s);
    var r := vol.Opened(s.id).value;
    assert EntryDone(t, r, s, k);
    NodeThere(r, Locators(r, s.ino), Entries(r, s.ino)[k]);
  }

  lemma NodeThere(r: Reader, ns: seq<NestedEntry>, d: Dirent)
    requires EntryOk(r, ns, d)
    ensures r.stat(d.inode).Ok?
  {
  }

  lemma {:induction false} CheckedUnder(cs: seq<Checked>, ino: i64)
    requires ino in InodesOf(cs)
    ensures exists i :: 0 <= i < |cs| && cs[i].ino == ino
  {
    var n := |cs| - 1;
    if cs[n].ino != ino {
      CheckedUnder(cs[..n], ino);
      var i :| 0 <= i < n && cs[..n][i].ino == ino;
      assert cs[i].ino == ino;
    }
  }
}
