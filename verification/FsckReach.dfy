/**
  How much of a volume a check without a finding has seen.  A catalog is descended into once, where
  the first transition point into it lands; this is exactly when that is enough.
 */
module FsckReach {
  import opened Bytes
  import opened LittleEndian
  import PackIndex
  import opened FsckVolume
  import opened FsckReport
  import opened FsckTrail
  import opened FsckTally
  import opened FsckQueue
  import opened FsckContent
  import opened FsckCertificate

  /** Directory l lies at or below where the descent into its catalog began. */
  ghost predicate Below(vol: Volume, starts: map<Bytes, i64>, l: Spot) {
    && l.id in starts && vol.Opened(l.id).Some?
    && exists steps :: Follow(vol.Opened(l.id).value, starts[l.id], steps) == Some(l.ino)
  }

  /** What was walked is what lies below those beginnings, no more and no less. */
  lemma FinishedBelow(vol: Volume, t: Trail, l: Spot)
    requires Over(t, vol)
    ensures l in t.finished <==> Below(vol, t.starts, l)
  {
    hide Settled, Follow, TwoWays;
    if l in t.finished {
      assert AnchoredAt(t, vol, l);
    }
    if Below(vol, t.starts, l) {
      var steps :| Follow(vol.Opened(l.id).value, t.starts[l.id], steps) == Some(l.ino);
      EverythingWalked(t, vol, l.id, steps);
    }
  }

  /** Every transition point of a directory walked lands at or below where its catalog was begun. */
  ghost predicate LandsBelow(vol: Volume, t: Trail) {
    forall s: Spot, k: nat, l: Spot :: s in t.finished && LandsAt(vol, s, k, l) ==> Below(vol, t.starts, l)
  }

  lemma EntersFinished(vol: Volume, t: Trail, s: Spot, k: nat)
    requires Over(t, vol) && s in t.finished && Hop(vol, s, k).Some?
    ensures Hop(vol, s, k).value in t.finished || LandsAt(vol, s, k, Hop(vol, s, k).value)
  {
    hide DirOk, EntryOk, Entries, Locators, TurnOf;
    assert SpotDone(t, vol, s);
    assert EntryDone(t, vol.Opened(s.id).value, s, k);
  }

  lemma {:induction false} ArrivesFinished(vol: Volume, t: Trail, hops: seq<nat>)
    requires Over(t, vol) && LandsBelow(vol, t) && Spot(vol.root, ROOT_INODE) in t.finished && Arrive(vol, hops).Some?
    ensures Arrive(vol, hops).value in t.finished
  {
    hide Over, Hop, LandsAt, Below;
    if hops != [] {
      var n := |hops| - 1;
      ArrivesFinished(vol, t, hops[..n]);
      var s := Arrive(vol, hops[..n]).value;
      EntersFinished(vol, t, s, hops[n]);
      FinishedBelow(vol, t, Hop(vol, s, hops[n]).value);
    }
  }

  lemma RootFinished(vol: Volume, recs: seq<Bytes>, t: Trail, checked: seq<Checked>)
    requires PackIndex.Wide(recs) && Certified(vol, recs, t, checked)
    ensures Spot(vol.root, ROOT_INODE) in t.finished
  {
    hide Settled, Anchored, CheckedSound, StartsLanded, ShardsOk;
  }

  /**
    A check without a finding has walked every directory that entries lead to from the root if and
    only if every transition point of a directory it walked lands at or below where the catalog it
    names was begun.
   */
  lemma ReachedExactly(vol: Volume, recs: seq<Bytes>, t: Trail, checked: seq<Checked>)
    requires PackIndex.Wide(recs) && Certified(vol, recs, t, checked)
    ensures (forall s :: Reachable(vol, s) ==> s in t.finished) <==> LandsBelow(vol, t)
  {
    hide Settled, Anchored, CheckedSound, StartsLanded, ShardsOk, CatalogsSound, Follow, Hop, LandsAt, Below;
    RootFinished(vol, recs, t, checked);
    if LandsBelow(vol, t) {
      forall s | Reachable(vol, s)
        ensures s in t.finished
      {
        var hops :| Arrive(vol, hops) == Some(s);
        ArrivesFinished(vol, t, hops);
      }
    }
    if forall s :: Reachable(vol, s) ==> s in t.finished {
      forall s: Spot, k: nat, l: Spot | s in t.finished && LandsAt(vol, s, k, l)
        ensures Below(vol, t.starts, l)
      {
        EnteredReachable(vol, t, s);
        LandsHop(vol, s, k, l);
        HopReachable(vol, s, k);
        FinishedBelow(vol, t, l);
      }
    }
  }

  // ---------- A condition on the volume alone ----------

  /** Where the root's descent begins, or where any transition point that can be reached lands. */
  ghost predicate Entrance(vol: Volume, l: Spot) {
    l == Spot(vol.root, ROOT_INODE) || exists s: Spot, k: nat :: Reachable(vol, s) && LandsAt(vol, s, k, l)
  }

  /** Every catalog is entered at one inode, the root's at the root inode. */
  ghost predicate OneEntrance(vol: Volume) {
    forall a, b :: Entrance(vol, a) && Entrance(vol, b) && a.id == b.id ==> a == b
  }

  lemma LandingEntrance(vol: Volume, entered: set<Spot>, l: Spot)
    requires Landing(vol, entered, l)
    ensures Entrance(vol, l)
  {
    hide Reachable, LandsAt;
  }

  lemma OneEntranceLands(vol: Volume, recs: seq<Bytes>, t: Trail, checked: seq<Checked>)
    requires PackIndex.Wide(recs) && Certified(vol, recs, t, checked) && OneEntrance(vol)
    ensures LandsBelow(vol, t)
  {
    hide CheckedSound, ShardsOk, Anchored, Follow, LandsAt, Below, Landing, DirOk, EntryOk, Entries, Reachable, TurnOf,
         Locators;
    forall s: Spot, k: nat, l: Spot | s in t.finished && LandsAt(vol, s, k, l)
      ensures Below(vol, t.starts, l)
    {
      LandedQueued(vol, t, s, k, l);
      EnteredReachable(vol, t, s);
      assert Entrance(vol, l);
      LandingEntrance(vol, t.via.Keys, Spot(l.id, t.starts[l.id]));
      FinishedBelow(vol, t, l);
    }
  }

  lemma LandedQueued(vol: Volume, t: Trail, s: Spot, k: nat, l: Spot)
    requires Over(t, vol) && s in t.finished && LandsAt(vol, s, k, l)
    ensures l.id in t.starts
  {
    hide DirOk, EntryOk, Entries, Locators, TurnOf;
    assert SpotDone(t, vol, s);
    assert EntryDone(t, vol.Opened(s.id).value, s, k);
  }

  /**
    So where every catalog is entered at one inode a check without a finding vouches for the whole
    volume: whatever entries lead to from the root was walked and is sound, in a catalog that hashes
    to its name and is in order.
   */
  lemma CertifiedVolume(vol: Volume, recs: seq<Bytes>, t: Trail, checked: seq<Checked>, s: Spot)
    requires PackIndex.Wide(recs) && Certified(vol, recs, t, checked) && OneEntrance(vol) && Reachable(vol, s)
    ensures s in t.finished && vol.Honest(s.id) && vol.Opened(s.id).value.ordered && DirOk(vol.Opened(s.id).value, s.ino)
  {
    hide CheckedSound, ShardsOk, Follow, LandsBelow, StartsLanded, Reachable, DirOk, EntriesDone, OneEntrance, TwoWays;
    OneEntranceLands(vol, recs, t, checked);
    ReachedExactly(vol, recs, t, checked);
    assert SpotDone(t, vol, s) && AnchoredAt(t, vol, s);
  }
}
