/**
  A check some of whose fetches fail, because the caller gives up in the middle of one or the
  transport does: what it then finds in a volume that is sound.
 */
module FsckFetches {
  import opened Bytes
  import opened LittleEndian
  import opened CatalogRecords
  import opened StaticQueries
  import PackIndex
  import opened FsckVolume
  import opened FsckReport
  import opened FsckTrail
  import opened FsckTally
  import opened FsckQueue
  import opened FsckContent
  import opened FsckFaults
  import opened FsckWalk
  import opened FsckCertificate

  /** The volume as fetched: a catalog or shard whose fetch fails is as good as unreadable. */
  function Fetched(vol: Volume, lost: set<Bytes>): Volume {
    vol.(objects := map id | id in vol.objects :: if id in lost then Unusable(false) else vol.objects[id])
  }

  /** A fetch failed that the check needed: of a catalog queued or of a shard. */
  ghost predicate LossMet(vol: Volume, lost: set<Bytes>, t: Trail) {
    || (exists id :: id in t.starts && id in lost)
    || (exists k :: 0 <= k < |vol.shards| && vol.shards[k].identity in lost)
  }

  lemma FetchedOpens(vol: Volume, lost: set<Bytes>, id: Bytes)
    ensures Fetched(vol, lost).Opened(id) == if id in lost then None else vol.Opened(id)
    ensures Fetched(vol, lost).Honest(id) <==> vol.Honest(id) && id !in lost
    ensures Fetched(vol, lost).root == vol.root && Fetched(vol, lost).shards == vol.shards
  {
  }

  lemma HopStill(vol: Volume, lost: set<Bytes>, s: Spot, k: nat)
    requires Hop(Fetched(vol, lost), s, k).Some?
    ensures Hop(vol, s, k) == Hop(Fetched(vol, lost), s, k)
  {
    hide Fetched, Entries, Locators, TurnOf;
    FetchedOpens(vol, lost, s.id);
  }

  lemma {:induction false} ArriveStill(vol: Volume, lost: set<Bytes>, hops: seq<nat>)
    requires Arrive(Fetched(vol, lost), hops).Some?
    ensures Arrive(vol, hops) == Arrive(Fetched(vol, lost), hops)
  {
    hide Fetched, Hop;
    FetchedOpens(vol, lost, vol.root);
    if hops != [] {
      var n := |hops| - 1;
      ArriveStill(vol, lost, hops[..n]);
      HopStill(vol, lost, Arrive(vol, hops[..n]).value, hops[n]);
    }
  }

  /** A failed fetch shows nothing that is not there. */
  lemma ReachableStill(vol: Volume, lost: set<Bytes>, s: Spot)
    requires Reachable(Fetched(vol, lost), s)
    ensures Reachable(vol, s)
  {
    hide Fetched;
    var hops :| Arrive(Fetched(vol, lost), hops) == Some(s);
    ArriveStill(vol, lost, hops);
  }

  /** While no shard is lost a shard's records are where they were. */
  lemma FilesStill(vol: Volume, lost: set<Bytes>, recs: seq<Bytes>, r: Reader, n: Node)
    requires PackIndex.Wide(recs) && forall k :: 0 <= k < |vol.shards| ==> vol.shards[k].identity !in lost
    ensures FileOk(Fetched(vol, lost), recs, r, n) <==> FileOk(vol, recs, r, n)
  {
    hide Fetched, ContentOk, ShardFor;
    FetchedOpens(vol, lost, vol.root);
    var sh := ShardFor(vol.shards, ToU64(n.inode));
    if sh.Some? {
      FetchedOpens(vol, lost, sh.value.identity);
    }
  }

  lemma ShardsStill(vol: Volume, lost: set<Bytes>)
    requires ShardsOk(vol)
    ensures ShardsOk(Fetched(vol, lost)) <==> forall k :: 0 <= k < |vol.shards| ==> vol.shards[k].identity !in lost
  {
    hide Fetched, Volume.Honest;
    forall id
      ensures Fetched(vol, lost).Honest(id) <==> vol.Honest(id) && id !in lost
    {
      FetchedOpens(vol, lost, id);
    }
    FetchedOpens(vol, lost, vol.root);
    if ShardsOk(Fetched(vol, lost)) {
      forall k | 0 <= k < |vol.shards|
        ensures vol.shards[k].identity !in lost
      {
        assert ShardOk(Fetched(vol, lost), k);
      }
    }
    if forall k :: 0 <= k < |vol.shards| ==> vol.shards[k].identity !in lost {
      forall k | 0 <= k < |vol.shards|
        ensures ShardOk(Fetched(vol, lost), k)
      {
        assert ShardOk(vol, k);
      }
    }
  }

  lemma WaysStill(vol: Volume, recs: seq<Bytes>, lost: set<Bytes>, t: Trail)
    requires PackIndex.Wide(recs) && SoundVolume(vol, recs)
    requires StartsLanded(Fetched(vol, lost), t.via.Keys, t.starts)
    ensures !TwoWays(Fetched(vol, lost), t)
  {
    hide Fetched, ShardsOk, NoRootNode, Reachable, SoundAt, Follow, Landing;
    forall id, p, q
      ensures !TwoWaysIn(Fetched(vol, lost), t, id, p, q)
    {
      if id in t.starts && p != q {
        LandingReachable(Fetched(vol, lost), t.via.Keys, Spot(id, t.starts[id]));
        ReachableStill(vol, lost, Spot(id, t.starts[id]));
        FetchedOpens(vol, lost, id);
        assert OneWay(vol, Spot(id, t.starts[id]));
        assert vol.Opened(id).Some? ==> !Meet(vol.Opened(id).value, t.starts[id], p, q);
      }
    }
  }

  lemma CatalogsStill(vol: Volume, recs: seq<Bytes>, lost: set<Bytes>, t: Trail, id: Bytes)
    requires PackIndex.Wide(recs) && SoundVolume(vol, recs) && id in t.starts
    requires StartsLanded(Fetched(vol, lost), t.via.Keys, t.starts)
    ensures BadCatalogObject(Fetched(vol, lost), id) <==> id in lost
  {
    hide Fetched, ShardsOk, NoRootNode, Reachable, DirOk, FilesSoundIn, OneWay, Landing;
    LandingReachable(Fetched(vol, lost), t.via.Keys, Spot(id, t.starts[id]));
    ReachableStill(vol, lost, Spot(id, t.starts[id]));
    assert SoundAt(vol, recs, Spot(id, t.starts[id]));
    FetchedOpens(vol, lost, id);
  }

  lemma DirsStill(vol: Volume, recs: seq<Bytes>, lost: set<Bytes>, t: Trail, s: Spot)
    requires PackIndex.Wide(recs) && SoundVolume(vol, recs) && s in t.via
    requires Anchored(t, Fetched(vol, lost)) && StartsLanded(Fetched(vol, lost), t.via.Keys, t.starts)
    ensures !BadDir(Fetched(vol, lost), s) && SoundAt(vol, recs, s)
  {
    hide Fetched, ShardsOk, NoRootNode, Reachable, DirOk, FilesSoundIn, OneWay, Anchored, StartsLanded, Volume.Honest;
    EnteredReachable(Fetched(vol, lost), t, s);
    ReachableStill(vol, lost, s);
    assert SoundAt(vol, recs, s);
    FetchedOpens(vol, lost, s.id);
  }

  lemma FileStill(vol: Volume, recs: seq<Bytes>, lost: set<Bytes>, t: Trail, tally: Tally, i: nat)
    requires PackIndex.Wide(recs) && SoundVolume(vol, recs) && i < |tally.checked|
    requires Anchored(t, Fetched(vol, lost)) && StartsLanded(Fetched(vol, lost), t.via.Keys, t.starts)
    requires AllMet(Fetched(vol, lost), t.via.Keys, tally)
    requires forall k :: 0 <= k < |vol.shards| ==> vol.shards[k].identity !in lost
    ensures !BadFile(Fetched(vol, lost), recs, tally.checked[i])
  {
    hide Fetched, SoundVolume, DirOk, FileOk, Anchored, StartsLanded, MetOtherwise, Volume.Honest, Entries;
    var f := tally.checked[i];
    assert MetAsFile(Fetched(vol, lost), t.via.Keys, f);
    var s: Spot, k: nat :| s in t.via.Keys && s.id == f.id && EntryIs(Fetched(vol, lost), s, k, f.ino, f.node);
    DirsStill(vol, recs, lost, t, s);
    FetchedOpens(vol, lost, s.id);
    assert EntryIs(vol, s, k, f.ino, f.node);
    FilesStill(vol, lost, recs, vol.Opened(s.id).value, f.node);
  }

  /** Of a sound volume what a walk has met is at fault exactly if a fetch it needed has failed. */
  lemma FaultyExactly(vol: Volume, recs: seq<Bytes>, lost: set<Bytes>, t: Trail, tally: Tally)
    requires PackIndex.Wide(recs) && SoundVolume(vol, recs) && AllMet(Fetched(vol, lost), t.via.Keys, tally)
    requires Anchored(t, Fetched(vol, lost)) && StartsLanded(Fetched(vol, lost), t.via.Keys, t.starts)
    ensures Faulty(Fetched(vol, lost), recs, t, tally.checked) <==> LossMet(vol, lost, t)
  {
    hide Fetched, ShardsOk, Reachable, SoundAt, OneWay, AllMet, Anchored, StartsLanded, BadCatalogObject, BadDir,
         BadFile, NoRootNode;
    SoundRoot(vol, recs, lost);
    ShardsStill(vol, lost);
    TreeStill(vol, recs, lost, t);
    forall id | id in t.starts
      ensures BadCatalogObject(Fetched(vol, lost), id) <==> id in lost
    {
      CatalogsStill(vol, recs, lost, t, id);
    }
    forall s | s in t.via
      ensures !BadDir(Fetched(vol, lost), s)
    {
      DirsStill(vol, recs, lost, t, s);
    }
    if forall k :: 0 <= k < |vol.shards| ==> vol.shards[k].identity !in lost {
      forall i | 0 <= i < |tally.checked|
        ensures !BadFile(Fetched(vol, lost), recs, tally.checked[i])
      {
        FileStill(vol, recs, lost, t, tally, i);
      }
    }
  }

  lemma SoundRoot(vol: Volume, recs: seq<Bytes>, lost: set<Bytes>)
    requires PackIndex.Wide(recs) && SoundVolume(vol, recs)
    ensures ShardsOk(vol) && !NoRootNode(Fetched(vol, lost)) && vol.Opened(vol.root).Some?
  {
    hide Fetched, ShardsOk, Reachable, OneWay, DirOk, FilesSoundIn;
    FetchedOpens(vol, lost, vol.root);
    RootReachable(vol);
    assert SoundAt(vol, recs, Spot(vol.root, ROOT_INODE));
  }

  lemma TreeStill(vol: Volume, recs: seq<Bytes>, lost: set<Bytes>, t: Trail)
    requires PackIndex.Wide(recs) && SoundVolume(vol, recs) && Anchored(t, Fetched(vol, lost))
    requires StartsLanded(Fetched(vol, lost), t.via.Keys, t.starts)
    ensures t.cycles == 0
  {
    hide Fetched, SoundVolume, StartsLanded, TwoWays;
    WaysStill(vol, recs, lost, t);
  }

  /**
    The check with some fetches failing.  Of a sound volume it finds something only if a fetch it needed
    failed, and once it completes exactly if one did; it cannot begin exactly if the root's failed.
   */
  method CheckFetched(vol: Volume, lost: set<Bytes>, index: PackIndex.Index, alive: nat -> bool)
    returns (w: Option<Walker>, complete: bool)
    requires index.Valid()
    ensures (complete ==> w.Some?) && (w.Some? <==> vol.Opened(vol.root).Some? && vol.root !in lost)
    ensures w.Some? ==> w.value.Valid() && w.value.c.vol == Fetched(vol, lost)
    ensures w.Some? && SoundVolume(vol, index.Recs()) && !w.value.c.Clean() ==> LossMet(vol, lost, w.value.Now())
    ensures complete && SoundVolume(vol, index.Recs()) ==> (w.value.c.Clean() <==> !LossMet(vol, lost, w.value.Now()))
  {
    hide Walker.Valid, Certified, SoundVolume, Faulty, LossMet, Fetched, Over, Anchored, StartsLanded, AllMet;
    FetchedOpens(vol, lost, vol.root);
    w, complete := Check(Fetched(vol, lost), index, alive);
    if w.Some? {
      w.value.Accounts();
      if SoundVolume(vol, index.Recs()) {
        FaultyExactly(vol, index.Recs(), lost, w.value.Now(), w.value.Counts());
      }
    }
  }
}
