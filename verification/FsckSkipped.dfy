/** A volume with a broken file that a check passes over without a finding. */
module FsckSkipped {
  import opened Bytes
  import opened LittleEndian
  import opened CatalogRecords
  import opened StaticQueries
  import PackIndex
  import opened FsckVolume
  import opened FsckReport
  import opened FsckTrail
  import opened FsckTally
  import opened FsckQueue
  import opened FsckContent
  import opened FsckFaults
  import opened FsckWalk
  import opened FsckCertificate

  const UPPER: Bytes := [0, 0, 0, 0, 0, 0, 0, 0, 0, 0, 0, 0, 0, 0, 0, 0, 0, 0, 0, 0, 0, 0, 0, 0, 0, 0, 0, 0, 0, 0, 0, 0]
  const LOWER: Bytes := [1, 1, 1, 1, 1, 1, 1, 1, 1, 1, 1, 1, 1, 1, 1, 1, 1, 1, 1, 1, 1, 1, 1, 1, 1, 1, 1, 1, 1, 1, 1, 1]
  const DIR_NAME: Bytes := [100]
  const FILE_NAME: Bytes := [102]

  function DirNode(ino: i64): Node {
    Node(ino, TYPE_DIR, 0, 0, 0, 0, 0, 1, 0, 0, 0, 0)
  }

  /** Ten bytes long, and nowhere to be had: no inline row, no chunks. */
  const BROKEN := Node(ROOT_INODE, TYPE_FILE, 0, 0, 0, 0, 0, 1, 10, 0, 0, 0)

  /** The root catalog: directory 1 with one subdirectory, which is the other catalog's. */
  function Upper(): Reader {
    Reader(true,
           (ino: i64) => if ino == 1 then Ok(([Dirent(DIR_NAME, 2, TYPE_DIR)], [NestedEntry(DIR_NAME, LOWER)])) else Err(NotExist),
           (ino: i64) => if ino == 1 || ino == 2 then Ok(DirNode(ino)) else Err(NotExist),
           (ino: i64) => Err(NotExist), (ino: i64) => Ok(None), (ino: i64) => Ok(None))
  }

  /** Directory 2 with one file, whose inode is the root directory's all over again. */
  function Lower(): Reader {
    Reader(true,
           (ino: i64) => if ino == 2 then Ok(([Dirent(FILE_NAME, ROOT_INODE, TYPE_FILE)], [])) else Err(NotExist),
           (ino: i64) => if ino == 2 then Ok(DirNode(2)) else if ino == ROOT_INODE then Ok(BROKEN) else Err(NotExist),
           (ino: i64) => Err(NotExist), (ino: i64) => Ok(None), (ino: i64) => Ok(None))
  }

  function Skipping(): Volume {
    Volume(UPPER, map[UPPER := Usable(Upper(), true), LOWER := Usable(Lower(), true)], [])
  }

  lemma BothLawful()
    ensures Lawful(Upper()) && Lawful(Lower())
  {
  }

  lemma Members()
    ensures Skipping().root == UPPER && Skipping().Opened(UPPER) == Some(Upper())
    ensures Skipping().Opened(LOWER) == Some(Lower())
  {
    assert UPPER[0] != LOWER[0];
  }

  ghost predicate OneOfTwo(s: Spot) {
    s == Spot(UPPER, 1) || s == Spot(LOWER, 2)
  }

  lemma UpperHop(k: nat)
    ensures Hop(Skipping(), Spot(UPPER, 1), k) == if k == 0 then Some(Spot(LOWER, 2)) else None
  {
    var r := Upper();
    assert Entries(r, 1) == [Dirent(DIR_NAME, 2, TYPE_DIR)] && Locators(r, 1) == [NestedEntry(DIR_NAME, LOWER)];
    assert Locator(Locators(r, 1), DIR_NAME) == Some(LOWER);
  }

  lemma LowerHop(k: nat)
    ensures Hop(Skipping(), Spot(LOWER, 2), k) == None
  {
    assert UPPER[0] != LOWER[0];
    assert Entries(Lower(), 2) == [Dirent(FILE_NAME, ROOT_INODE, TYPE_FILE)];
  }

  lemma {:induction false} TwoSpots(hops: seq<nat>)
    ensures Arrive(Skipping(), hops).Some? ==> OneOfTwo(Arrive(Skipping(), hops).value)
  {
    hide Hop, Skipping;
    if hops != [] {
      var n := |hops| - 1;
      TwoSpots(hops[..n]);
      UpperHop(hops[n]);
      LowerHop(hops[n]);
    } else {
      Members();
    }
  }

  lemma OnlyTwo(s: Spot)
    requires Reachable(Skipping(), s)
    ensures OneOfTwo(s)
  {
    var hops :| Arrive(Skipping(), hops) == Some(s);
    TwoSpots(hops);
  }

  lemma NoSteps(s: Spot, steps: seq<nat>)
    requires OneOfTwo(s) && steps != []
    ensures Follow(Skipping().Opened(s.id).value, s.ino, steps).None?
    decreases |steps|
  {
    var n := |steps| - 1;
    if n > 0 {
      NoSteps(s, steps[..n]);
    } else {
      assert steps[..n] == [];
      UpperHop(steps[n]);
      LowerHop(steps[n]);
      assert UPPER[0] != LOWER[0];
    }
  }

  lemma SpotsSound(s: Spot)
    requires OneOfTwo(s)
    ensures Skipping().Honest(s.id) && Skipping().Opened(s.id).value.ordered
    ensures DirOk(Skipping().Opened(s.id).value, s.ino)
    ensures OneWay(Skipping(), s)
  {
    assert UPPER[0] != LOWER[0];
    BothDirsOk();
    forall p, q | p != q
      ensures !Meet(Skipping().Opened(s.id).value, s.ino, p, q)
    {
      if p != [] {
        NoSteps(s, p);
      } else {
        NoSteps(s, q);
      }
    }
  }

  lemma BothDirsOk()
    ensures DirOk(Upper(), 1) && DirOk(Lower(), 2)
  {
    assert Locator([NestedEntry(DIR_NAME, LOWER)], DIR_NAME) == Some(LOWER);
    assert Entries(Upper(), 1)[0].name == DIR_NAME;
  }

  /** The one file there is has the root's inode, which counts as a directory from the start. */
  lemma NothingToCheck(t: Trail, tally: Tally)
    requires Anchored(t, Skipping()) && StartsLanded(Skipping(), t.via.Keys, t.starts)
    requires TallyOk(tally) && AllMet(Skipping(), t.via.Keys, tally)
    ensures tally.checked == []
  {
    hide Skipping, Anchored, StartsLanded, TotalLength, InodesOf, EntryIs, MetOtherwise;
    if tally.checked != [] {
      var f := tally.checked[0];
      assert MetAsFile(Skipping(), t.via.Keys, f);
      var s: Spot, k: nat :| s in t.via.Keys && s.id == f.id && EntryIs(Skipping(), s, k, f.ino, f.node);
      EnteredReachable(Skipping(), t, s);
      OnlyTwo(s);
      FileIsBroken(s, k, f.ino, f.node);
      InodesIn(tally.checked, 0);
      assert false;
    }
  }

  lemma FileIsBroken(s: Spot, k: nat, ino: i64, n: Node)
    requires OneOfTwo(s) && EntryIs(Skipping(), s, k, ino, n) && n.typ == TYPE_FILE
    ensures s == Spot(LOWER, 2) && ino == ROOT_INODE && n == BROKEN
  {
    assert UPPER[0] != LOWER[0];
    assert Entries(Upper(), 1) == [Dirent(DIR_NAME, 2, TYPE_DIR)];
    assert Entries(Lower(), 2) == [Dirent(FILE_NAME, ROOT_INODE, TYPE_FILE)];
  }

  lemma ReachedSound(s: Spot)
    requires Reachable(Skipping(), s)
    ensures Skipping().Honest(s.id) && Skipping().Opened(s.id).value.ordered
    ensures DirOk(Skipping().Opened(s.id).value, s.ino)
    ensures OneWay(Skipping(), s)
  {
    hide *;
    OnlyTwo(s);
    SpotsSound(s);
  }

  lemma MetSound(t: Trail)
    requires Anchored(t, Skipping()) && StartsLanded(Skipping(), t.via.Keys, t.starts)
    ensures forall id :: id in t.starts ==> !BadCatalogObject(Skipping(), id)
    ensures forall s :: s in t.via ==> !BadDir(Skipping(), s)
  {
    hide Skipping, OneWay, DirOk, Reachable, Anchored, Landing, Volume.Honest;
    forall id | id in t.starts
      ensures !BadCatalogObject(Skipping(), id)
    {
      LandingReachable(Skipping(), t.via.Keys, Spot(id, t.starts[id]));
      ReachedSound(Spot(id, t.starts[id]));
    }
    forall s | s in t.via
      ensures !BadDir(Skipping(), s)
    {
      EnteredReachable(Skipping(), t, s);
      ReachedSound(s);
    }
  }

  /** Whatever a walk of this volume leaves, nothing it has met is at fault. */
  lemma NothingFound(recs: seq<Bytes>, t: Trail, tally: Tally)
    requires PackIndex.Wide(recs) && Anchored(t, Skipping()) && StartsLanded(Skipping(), t.via.Keys, t.starts)
    requires TallyOk(tally) && AllMet(Skipping(), t.via.Keys, tally)
    ensures !Faulty(Skipping(), recs, t, tally.checked)
  {
    hide Skipping, Anchored, StartsLanded, TallyOk, AllMet, BadCatalogObject, BadDir, BadFile, ShardsOk, NoRootNode;
    NothingToCheck(t, tally);
    MetSound(t);
    NoMeeting(t);
    RootThere();
  }

  lemma RootThere()
    ensures ShardsOk(Skipping()) && !NoRootNode(Skipping())
  {
  }

  lemma NoMeeting(t: Trail)
    requires Anchored(t, Skipping()) && StartsLanded(Skipping(), t.via.Keys, t.starts)
    ensures t.cycles == 0
  {
    hide Skipping, Reachable, Follow, DirOk, Landing, Volume.Honest;
    forall id, p, q
      ensures !TwoWaysIn(Skipping(), t, id, p, q)
    {
      if id in t.starts && Skipping().Opened(id).Some? && p != q {
        LandingReachable(Skipping(), t.via.Keys, Spot(id, t.starts[id]));
        ReachedSound(Spot(id, t.starts[id]));
        assert !Meet(Skipping().Opened(id).value, t.starts[id], p, q);
      }
    }
  }

  lemma BrokenIsUnsound(recs: seq<Bytes>)
    requires PackIndex.Wide(recs)
    ensures !FileOk(Skipping(), recs, Lower(), BROKEN)
    ensures EntryIs(Skipping(), Spot(LOWER, 2), 0, ROOT_INODE, BROKEN) && Reachable(Skipping(), Spot(LOWER, 2))
  {
    assert UPPER[0] != LOWER[0];
    assert Entries(Lower(), 2) == [Dirent(FILE_NAME, ROOT_INODE, TYPE_FILE)];
    RootReachable(Skipping());
    UpperHop(0);
    HopReachable(Skipping(), Spot(UPPER, 1), 0);
  }

  /** The check completes, finds nothing, and has not looked at the broken file. */
  method Passes(index: PackIndex.Index) returns (w: Walker, complete: bool)
    requires index.Valid()
    ensures complete && w.Valid() && w.c.vol == Skipping() && w.c.Clean() && w.checked == []
    ensures Lawful(Upper()) && Lawful(Lower())
    ensures EntryIs(Skipping(), Spot(LOWER, 2), 0, ROOT_INODE, BROKEN) && Spot(LOWER, 2) in w.finished
    ensures !FileOk(Skipping(), index.Recs(), Lower(), BROKEN)
  {
    hide Walker.Valid, Faulty, Certified, FileOk, Skipping, Lawful, EntryIs, AllMet, Anchored, StartsLanded, Reachable;
    BothLawful();
    Opens();
    var made;
    made, complete := Check(Skipping(), index, (i: nat) => true);
    w := made.value;
    w.Accounts();
    NothingFound(index.Recs(), w.Now(), w.Counts());
    NothingToCheck(w.Now(), w.Counts());
    BrokenIsUnsound(index.Recs());
    LowerFinished(index.Recs(), w.Now(), w.checked);
  }

  /** The directory that holds it was walked. */
  lemma LowerFinished(recs: seq<Bytes>, t: Trail, checked: seq<Checked>)
    requires PackIndex.Wide(recs) && Certified(Skipping(), recs, t, checked)
    ensures Spot(LOWER, 2) in t.finished
  {
    hide Follow, Settled, Anchored, CatalogsSound, CheckedSound, Reachable, Entries, Locators, Landing;
    hide Skipping;
    Members();
    UpperTurn();
    assert Follow(Upper(), t.starts[UPPER], []) == Some(1) by { FollowNowhere(Upper(), 1); }
    assert TransitAt(Upper(), t.starts[UPPER], [], 0, LOWER);
    assert CrossesTo(Skipping(), t, UPPER, LOWER);
    EverythingQueued(t, Skipping(), [UPPER, LOWER]);
    LandingReachable(Skipping(), t.via.Keys, Spot(LOWER, t.starts[LOWER]));
    OnlyTwo(Spot(LOWER, t.starts[LOWER]));
    assert UPPER[0] != LOWER[0];
  }

  lemma FollowNowhere(r: Reader, start: i64)
    ensures Follow(r, start, []) == Some(start)
  {
  }

  lemma UpperTurn()
    ensures |Entries(Upper(), 1)| == 1 && TurnOf(Upper(), Locators(Upper(), 1), Entries(Upper(), 1)[0]) == Crosses(LOWER)
  {
    assert Locator([NestedEntry(DIR_NAME, LOWER)], DIR_NAME) == Some(LOWER);
  }

  lemma Opens()
    ensures Skipping().Opened(Skipping().root).Some?
  {
  }
}
