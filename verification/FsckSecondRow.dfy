/** A volume in which a file has two rows, the second of them unsound, and a check that finds nothing. */
module FsckSecondRow {
  import opened Bytes
  import opened LittleEndian
  import opened CatalogRecords
  import opened StaticQueries
  import PackIndex
  import opened FsckVolume
  import opened FsckReport
  import opened FsckTrail
  import opened FsckTally
  import opened FsckOrder
  import opened FsckQueue
  import opened FsckContent
  import opened FsckFaults
  import opened FsckWalk
  import opened FsckCertificate
  import opened FsckSkipped

  const SHARED: i64 := 7

  /** Empty, and so sound without content. */
  const FIRST_ROW := Node(SHARED, TYPE_FILE, 0, 0, 0, 0, 0, 1, 0, 0, 0, 0)

  /** The same inode, ten bytes long this time, and without content too. */
  const SECOND_ROW := Node(SHARED, TYPE_FILE, 0, 0, 0, 0, 0, 1, 10, 0, 0, 0)

  /** Directory 1 with the file and a subdirectory, which is the other catalog's. */
  function Outer(): Reader {
    Reader(true,
           (ino: i64) => if ino == 1 then Ok(([Dirent(FILE_NAME, SHARED, TYPE_FILE), Dirent(DIR_NAME, 2, TYPE_DIR)],
                                              [NestedEntry(DIR_NAME, LOWER)]))
                         else Err(NotExist),
           (ino: i64) => if ino == 1 || ino == 2 then Ok(DirNode(ino))
                         else if ino == SHARED then Ok(FIRST_ROW) else Err(NotExist),
           (ino: i64) => Err(NotExist), (ino: i64) => Ok(None), (ino: i64) => Ok(None))
  }

  /** Directory 2 with the file again. */
  function Inner(): Reader {
    Reader(true,
           (ino: i64) => if ino == 2 then Ok(([Dirent(FILE_NAME, SHARED, TYPE_FILE)], [])) else Err(NotExist),
           (ino: i64) => if ino == 2 then Ok(DirNode(2)) else if ino == SHARED then Ok(SECOND_ROW) else Err(NotExist),
           (ino: i64) => Err(NotExist), (ino: i64) => Ok(None), (ino: i64) => Ok(None))
  }

  function TwoRows(): Volume {
    Volume(UPPER, map[UPPER := Usable(Outer(), true), LOWER := Usable(Inner(), true)], [])
  }

  const TOP := Spot(UPPER, 1)
  const BOTTOM := Spot(LOWER, 2)

  lemma TheReaders()
    ensures TwoRows().root == UPPER && UPPER != LOWER && Lawful(Outer()) && Lawful(Inner())
    ensures TwoRows().Opened(UPPER) == Some(Outer()) && TwoRows().Opened(LOWER) == Some(Inner())
    ensures TwoRows().Honest(UPPER) && TwoRows().Honest(LOWER) && ShardsOk(TwoRows())
  {
    assert UPPER[0] != LOWER[0];
  }

  lemma Turns()
    ensures Entries(Outer(), 1) == [Dirent(FILE_NAME, SHARED, TYPE_FILE), Dirent(DIR_NAME, 2, TYPE_DIR)]
    ensures Locators(Outer(), 1) == [NestedEntry(DIR_NAME, LOWER)]
    ensures TurnOf(Outer(), Locators(Outer(), 1), Dirent(FILE_NAME, SHARED, TYPE_FILE)) == Leaf
    ensures TurnOf(Outer(), Locators(Outer(), 1), Dirent(DIR_NAME, 2, TYPE_DIR)) == Crosses(LOWER)
    ensures Entries(Inner(), 2) == [Dirent(FILE_NAME, SHARED, TYPE_FILE)] && Locators(Inner(), 2) == []
    ensures TurnOf(Inner(), Locators(Inner(), 2), Dirent(FILE_NAME, SHARED, TYPE_FILE)) == Leaf
  {
    assert Locators(Outer(), 1) == [NestedEntry(DIR_NAME, LOWER)];
    assert Locator([NestedEntry(DIR_NAME, LOWER)], DIR_NAME) == Some(LOWER);
  }

  lemma DirsSound()
    ensures DirOk(Outer(), 1) && DirOk(Inner(), 2)
  {
    hide Outer, Inner;
    Turns();
    StatsAre();
    assert Entries(Outer(), 1)[1].name == DIR_NAME;
  }

  lemma StatsAre()
    ensures Outer().readdir(1).Ok? && Inner().readdir(2).Ok? && Outer().stat(1) == Ok(DirNode(1))
    ensures Outer().stat(SHARED) == Ok(FIRST_ROW) && Inner().stat(SHARED) == Ok(SECOND_ROW)
    ensures Outer().stat(2) == Ok(DirNode(2))
  {
  }

  lemma FirstRowSound(recs: seq<Bytes>)
    requires PackIndex.Wide(recs)
    ensures FileOk(TwoRows(), recs, Outer(), FIRST_ROW) && !FileOk(TwoRows(), recs, Inner(), SECOND_ROW)
  {
  }

  // ---------- Where a walk can get to ----------

  ghost predicate TopOrBottom(s: Spot) {
    s == TOP || s == BOTTOM
  }

  lemma TwoHops(k: nat)
    ensures Hop(TwoRows(), TOP, k) == (if k == 1 then Some(BOTTOM) else None) && Hop(TwoRows(), BOTTOM, k) == None
  {
    hide TwoRows, Outer, Inner, Entries, Locators, TurnOf;
    TheReaders();
    Turns();
  }

  lemma {:induction false} ArrivesAtTwo(hops: seq<nat>)
    ensures Arrive(TwoRows(), hops).Some? ==> TopOrBottom(Arrive(TwoRows(), hops).value)
  {
    hide Hop, TwoRows;
    TheReaders();
    if hops != [] {
      var n := |hops| - 1;
      ArrivesAtTwo(hops[..n]);
      TwoHops(hops[n]);
    }
  }

  lemma ReachedIsOne(s: Spot)
    requires Reachable(TwoRows(), s)
    ensures TopOrBottom(s)
  {
    var hops :| Arrive(TwoRows(), hops) == Some(s);
    ArrivesAtTwo(hops);
  }

  lemma {:induction false} NoWayOn(s: Spot, steps: seq<nat>)
    requires TopOrBottom(s) && steps != []
    ensures Follow(TwoRows().Opened(s.id).value, s.ino, steps).None?
    decreases |steps|
  {
    hide TwoRows, Outer, Inner, Entries, Locators, TurnOf;
    TheReaders();
    Turns();
    var n := |steps| - 1;
    if n > 0 {
      NoWayOn(s, steps[..n]);
    } else {
      assert steps[..n] == [];
    }
  }

  lemma WalkedAreTwo(t: Trail)
    requires Anchored(t, TwoRows()) && StartsLanded(TwoRows(), t.via.Keys, t.starts)
    ensures forall s :: s in t.via ==> TopOrBottom(s)
    ensures (forall id :: id in t.starts ==> TopOrBottom(Spot(id, t.starts[id]))) && t.cycles == 0
  {
    hide TwoRows, Reachable, Follow, Landing;
    forall s | s in t.via
      ensures TopOrBottom(s)
    {
      EnteredReachable(TwoRows(), t, s);
      ReachedIsOne(s);
    }
    forall id | id in t.starts
      ensures TopOrBottom(Spot(id, t.starts[id]))
    {
      LandingReachable(TwoRows(), t.via.Keys, Spot(id, t.starts[id]));
      ReachedIsOne(Spot(id, t.starts[id]));
    }
    forall id, p, q
      ensures !TwoWaysIn(TwoRows(), t, id, p, q)
    {
      if id in t.starts && p != q {
        if p != [] {
          NoWayOn(Spot(id, t.starts[id]), p);
        } else {
          NoWayOn(Spot(id, t.starts[id]), q);
        }
      }
    }
  }

  // ---------- What it finds ----------

  lemma EntriesAre(s: Spot, k: nat, ino: i64, n: Node)
    requires TopOrBottom(s) && EntryIs(TwoRows(), s, k, ino, n) && n.typ == TYPE_FILE
    ensures ino == SHARED && n == if s == TOP then FIRST_ROW else SECOND_ROW
  {
    hide TwoRows, Outer, Inner, Entries, Locators, TurnOf;
    TheReaders();
    Turns();
    StatsAre();
  }

  lemma BothListed()
    ensures EntryIs(TwoRows(), TOP, 0, SHARED, FIRST_ROW) && EntryIs(TwoRows(), BOTTOM, 0, SHARED, SECOND_ROW)
  {
    hide TwoRows, Outer, Inner, Entries, Locators, TurnOf;
    TheReaders();
    Turns();
    StatsAre();
  }

  /** Whichever directory it was met in, the file was checked in the upper catalog, which is begun first. */
  lemma CheckedAbove(t: Trail, begun: seq<Bytes>, tally: Tally, i: nat)
    requires (forall s :: s in t.via ==> TopOrBottom(s)) && TOP in t.via && begun != [] && begun[0] == UPPER
    requires OrderOk(TwoRows(), t.via.Keys, begun, tally.checked) && AllMet(TwoRows(), t.via.Keys, tally)
    requires i < |tally.checked|
    ensures tally.checked[i] == Checked(UPPER, SHARED, FIRST_ROW)
  {
    hide TwoRows, EntryIs, OrderOk, MetOtherwise;
    TheReaders();
    var f := tally.checked[i];
    assert MetAsFile(TwoRows(), t.via.Keys, f);
    var s: Spot, k: nat :| s in t.via.Keys && s.id == f.id && EntryIs(TwoRows(), s, k, f.ino, f.node);
    EntriesAre(s, k, f.ino, f.node);
    BothListed();
    assert Lists(TwoRows(), TOP, SHARED);
    CheckedInFirst(TwoRows(), t.via.Keys, begun, tally.checked, f, TOP);
  }

  lemma NothingAtFault(recs: seq<Bytes>, t: Trail, begun: seq<Bytes>, tally: Tally)
    requires PackIndex.Wide(recs) && Anchored(t, TwoRows()) && StartsLanded(TwoRows(), t.via.Keys, t.starts)
    requires TOP in t.via && begun != [] && begun[0] == UPPER
    requires OrderOk(TwoRows(), t.via.Keys, begun, tally.checked) && AllMet(TwoRows(), t.via.Keys, tally)
    ensures !Faulty(TwoRows(), recs, t, tally.checked)
    ensures forall i :: 0 <= i < |tally.checked| ==> tally.checked[i] == Checked(UPPER, SHARED, FIRST_ROW)
  {
    hide TwoRows, Outer, Inner, Anchored, StartsLanded, OrderOk, AllMet, DirOk, FileOk, ShardsOk, Volume.Honest;
    TheReaders();
    WalkedAreTwo(t);
    DirsSound();
    FirstRowSound(recs);
    RootAndOrder();
    forall i | 0 <= i < |tally.checked|
      ensures tally.checked[i] == Checked(UPPER, SHARED, FIRST_ROW) && !BadFile(TwoRows(), recs, tally.checked[i])
    {
      CheckedAbove(t, begun, tally, i);
    }
  }

  lemma RootAndOrder()
    ensures Outer().ordered && Inner().ordered && !NoRootNode(TwoRows())
  {
    TheReaders();
  }

  /** A walk that completes has been in both directories. */
  lemma TopWalked(t: Trail)
    requires Over(t, TwoRows()) && UPPER in t.starts && t.starts[UPPER] == ROOT_INODE
    ensures TOP in t.via
  {
    hide TwoRows, Settled, Anchored;
    TheReaders();
  }

  lemma BottomWalked(recs: seq<Bytes>, t: Trail, checked: seq<Checked>)
    requires PackIndex.Wide(recs) && Certified(TwoRows(), recs, t, checked)
    ensures BOTTOM in t.finished
  {
    hide TwoRows, Outer, Inner, Follow, Settled, Anchored, CatalogsSound, CheckedSound, Entries, Locators, TurnOf,
         StartsLanded;
    TheReaders();
    Turns();
    assert Follow(Outer(), 1, []) == Some(1) by { FollowNowhere(Outer(), 1); }
    assert TransitAt(Outer(), t.starts[UPPER], [], 1, LOWER);
    assert CrossesTo(TwoRows(), t, UPPER, LOWER);
    EverythingQueued(t, TwoRows(), [UPPER, LOWER]);
    WalkedAreTwo(t);
    assert TopOrBottom(Spot(LOWER, t.starts[LOWER]));
  }

  lemma FileOnly(entered: set<Spot>)
    requires forall s :: s in entered ==> TopOrBottom(s)
    ensures !MetOtherwise(TwoRows(), entered, SHARED)
  {
    hide TwoRows, Outer, Inner, Entries;
    TheReaders();
    StatsAre();
  }

  lemma CheckedAtAll(recs: seq<Bytes>, t: Trail, tally: Tally)
    requires PackIndex.Wide(recs) && Certified(TwoRows(), recs, t, tally.checked) && BOTTOM in t.finished
    requires TallyOk(tally) && tally.seen == t.seen && AllMet(TwoRows(), t.finished, tally)
    requires forall s :: s in t.finished ==> TopOrBottom(s)
    ensures tally.checked != []
  {
    hide TwoRows, Outer, Inner, Certified, TallyOk, CheckedSound, AllMet, MetOtherwise, Locators, TurnOf;
    TheReaders();
    Turns();
    FileOnly(t.finished);
    CertifiedFile(TwoRows(), recs, t, tally, BOTTOM, 0);
  }

  lemma CheckedOnce(tally: Tally)
    requires TallyOk(tally) && tally.checked != []
    requires forall i :: 0 <= i < |tally.checked| ==> tally.checked[i] == Checked(UPPER, SHARED, FIRST_ROW)
    ensures tally.checked == [Checked(UPPER, SHARED, FIRST_ROW)]
  {
    hide TotalLength, InodesOf;
    if |tally.checked| > 1 {
      FilesDistinct(tally.checked, 0, 1);
    }
  }

  /**
    The check completes and finds nothing.  It has walked the directory that holds the unsound row, and
    checked the file by its other row alone.
   */
  method PassesSecondRow(index: PackIndex.Index) returns (w: Walker, complete: bool)
    requires index.Valid()
    ensures complete && w.Valid() && w.c.vol == TwoRows() && w.c.Clean() && Lawful(Outer()) && Lawful(Inner())
    ensures BOTTOM in w.finished && EntryIs(TwoRows(), BOTTOM, 0, SHARED, SECOND_ROW)
    ensures !FileOk(TwoRows(), index.Recs(), Inner(), SECOND_ROW)
    ensures w.checked == [Checked(UPPER, SHARED, FIRST_ROW)]
  {
    hide Walker.Valid, Faulty, Certified, FileOk, TwoRows, Outer, Inner, EntryIs, AllMet, OrderOk, Anchored,
         StartsLanded, Over, SoundVolume, Lawful, TallyOk;
    TheReaders();
    var made;
    made, complete := Check(TwoRows(), index, (i: nat) => true);
    w := made.value;
    w.Accounts();
    TopWalked(w.Now());
    NothingAtFault(index.Recs(), w.Now(), w.begun, w.Counts());
    BottomWalked(index.Recs(), w.Now(), w.checked);
    FinishedKeys(w.Now());
    WalkedAreTwo(w.Now());
    CheckedAtAll(index.Recs(), w.Now(), w.Counts());
    CheckedOnce(w.Counts());
    FirstRowSound(index.Recs());
    BothListed();
  }

  lemma FinishedKeys(t: Trail)
    requires Over(t, TwoRows())
    ensures t.finished == t.via.Keys
  {
  }
}
