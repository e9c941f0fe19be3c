/** A volume of which a check that finds nothing has not walked everything. */
module FsckTwoLandings {
  import opened Bytes
  import opened LittleEndian
  import opened CatalogRecords
  import opened StaticQueries
  import PackIndex
  import opened FsckVolume
  import opened FsckReport
  import opened FsckTrail
  import opened FsckTally
  import opened FsckContent
  import opened FsckFaults
  import opened FsckWalk
  import opened FsckCertificate
  import opened FsckReach
  import opened FsckSkipped

  const GONE: Bytes := [2, 2, 2, 2, 2, 2, 2, 2, 2, 2, 2, 2, 2, 2, 2, 2, 2, 2, 2, 2, 2, 2, 2, 2, 2, 2, 2, 2, 2, 2, 2, 2]
  const A: Bytes := [97]
  const B: Bytes := [98]

  /** Directory 1 with two subdirectories, both the other catalog's. */
  function Above(): Reader {
    Reader(true,
           (ino: i64) => if ino == 1 then Ok(([Dirent(A, 2, TYPE_DIR), Dirent(B, 3, TYPE_DIR)],
                                              [NestedEntry(A, LOWER), NestedEntry(B, LOWER)]))
                         else Err(NotExist),
           (ino: i64) => if 1 <= ino <= 3 then Ok(DirNode(ino)) else Err(NotExist),
           (ino: i64) => Err(NotExist), (ino: i64) => Ok(None), (ino: i64) => Ok(None))
  }

  /** Directory 2, empty, and directory 3, whose first entry has no node and whose second leads to no catalog there is. */
  function Under(): Reader {
    Reader(true,
           (ino: i64) => if ino == 2 then Ok(([], []))
                         else if ino == 3 then Ok(([Dirent(A, 9, TYPE_FILE), Dirent(B, 4, TYPE_DIR)], [NestedEntry(B, GONE)]))
                         else Err(NotExist),
           (ino: i64) => if 2 <= ino <= 4 then Ok(DirNode(ino)) else Err(NotExist),
           (ino: i64) => Err(NotExist), (ino: i64) => Ok(None), (ino: i64) => Ok(None))
  }

  function Twice(): Volume {
    Volume(UPPER, map[UPPER := Usable(Above(), true), LOWER := Usable(Under(), true)], [])
  }

  lemma BothReadersLawful()
    ensures Lawful(Above()) && Lawful(Under())
  {
  }

  lemma TheCatalogs()
    ensures Twice().root == UPPER && UPPER != LOWER && UPPER != GONE && LOWER != GONE
    ensures Twice().Opened(UPPER) == Some(Above()) && Twice().Opened(LOWER) == Some(Under())
    ensures Twice().Opened(GONE) == None
    ensures Twice().Honest(UPPER) && Twice().Honest(LOWER) && !Twice().Honest(GONE) && ShardsOk(Twice())
  {
    assert UPPER[0] != LOWER[0] && UPPER[0] != GONE[0] && LOWER[0] != GONE[0];
  }

  lemma AboveTurns()
    ensures Entries(Above(), 1) == [Dirent(A, 2, TYPE_DIR), Dirent(B, 3, TYPE_DIR)]
    ensures TurnOf(Above(), Locators(Above(), 1), Dirent(A, 2, TYPE_DIR)) == Crosses(LOWER)
    ensures TurnOf(Above(), Locators(Above(), 1), Dirent(B, 3, TYPE_DIR)) == Crosses(LOWER)
  {
    var ns := Locators(Above(), 1);
    assert ns == [NestedEntry(A, LOWER), NestedEntry(B, LOWER)] && ns[..1] == [NestedEntry(A, LOWER)];
    assert A[0] != B[0];
    assert Locator(ns[..1], A) == Some(LOWER);
  }

  lemma UnderTurns()
    ensures Entries(Under(), 2) == []
    ensures Entries(Under(), 3) == [Dirent(A, 9, TYPE_FILE), Dirent(B, 4, TYPE_DIR)]
    ensures TurnOf(Under(), Locators(Under(), 3), Dirent(A, 9, TYPE_FILE)) == Lost
    ensures TurnOf(Under(), Locators(Under(), 3), Dirent(B, 4, TYPE_DIR)) == Crosses(GONE)
  {
    var ns := Locators(Under(), 3);
    assert ns == [NestedEntry(B, GONE)];
    assert Locator(ns, B) == Some(GONE);
  }

  lemma Hops(k: nat)
    ensures Hop(Twice(), Spot(UPPER, 1), k) ==
      if k == 0 then Some(Spot(LOWER, 2)) else if k == 1 then Some(Spot(LOWER, 3)) else None
    ensures Hop(Twice(), Spot(LOWER, 2), k) == None
    ensures Hop(Twice(), Spot(LOWER, 3), k) == if k == 1 then Some(Spot(GONE, 4)) else None
    ensures Hop(Twice(), Spot(GONE, 4), k) == None
  {
    hide Twice, Above, Under, Entries, Locators, TurnOf;
    TheCatalogs();
    AboveTurns();
    UnderTurns();
  }

  ghost predicate OneOfFour(s: Spot) {
    s == Spot(UPPER, 1) || s == Spot(LOWER, 2) || s == Spot(LOWER, 3) || s == Spot(GONE, 4)
  }

  lemma {:induction false} FourSpots(hops: seq<nat>)
    ensures Arrive(Twice(), hops).Some? ==> OneOfFour(Arrive(Twice(), hops).value)
  {
    hide Hop, Twice;
    TheCatalogs();
    if hops != [] {
      var n := |hops| - 1;
      FourSpots(hops[..n]);
      Hops(hops[n]);
    }
  }

  lemma OnlyFour(s: Spot)
    requires Reachable(Twice(), s)
    ensures OneOfFour(s)
  {
    var hops :| Arrive(Twice(), hops) == Some(s);
    FourSpots(hops);
  }

  /** All of it can be reached. */
  lemma AllReachable()
    ensures Reachable(Twice(), Spot(LOWER, 3)) && Reachable(Twice(), Spot(GONE, 4))
  {
    hide Reachable, Hop, Twice;
    TheCatalogs();
    RootReachable(Twice());
    Hops(1);
    HopReachable(Twice(), Spot(UPPER, 1), 1);
    HopReachable(Twice(), Spot(LOWER, 3), 1);
  }

  /** The first transition point into the lower catalog lands at inode 2. */
  lemma FirstLanding(s: Spot, k: nat, l: Spot)
    requires OneOfFour(s) && LandsFirst(Twice(), s, k, l)
    ensures l == Spot(LOWER, 2) || (s == Spot(LOWER, 3) && l == Spot(GONE, 4))
  {
    hide Hop, Twice, LandsAt, Reachable;
    TheCatalogs();
    LandsHop(Twice(), s, k, l);
    Hops(k);
    SecondIsLater();
  }

  lemma SecondIsLater()
    ensures !LandsFirst(Twice(), Spot(UPPER, 1), 1, Spot(LOWER, 3))
  {
    hide Twice, Above, Under, Entries, Locators, TurnOf;
    TheCatalogs();
    AboveTurns();
    assert LandsAt(Twice(), Spot(UPPER, 1), 0, Spot(LOWER, 2));
  }

  ghost predicate Trodden(s: Spot) {
    s == Spot(UPPER, 1) || s == Spot(LOWER, 2)
  }

  /** From where the descents begin no steps lead anywhere within a catalog. */
  lemma {:induction false} NoStepsFrom(s: Spot, steps: seq<nat>)
    requires Trodden(s) && steps != []
    ensures Follow(Twice().Opened(s.id).value, s.ino, steps).None?
    decreases |steps|
  {
    hide Twice, Above, Under, Entries, Locators, TurnOf;
    TheCatalogs();
    AboveTurns();
    UnderTurns();
    var n := |steps| - 1;
    if n > 0 {
      NoStepsFrom(s, steps[..n]);
    } else {
      assert steps[..n] == [];
    }
  }

  lemma EnteredAtStart(t: Trail, s: Spot)
    requires Anchored(t, Twice()) && s in t.via && Trodden(Spot(s.id, t.starts[s.id]))
    ensures Trodden(s)
  {
    hide Twice, TwoWays;
    assert AnchoredAt(t, Twice(), s);
    if t.via[s] != [] {
      NoStepsFrom(Spot(s.id, t.starts[s.id]), t.via[s]);
    }
  }

  /** No walk enters inode 3 of the lower catalog, or queues the catalog that is gone. */
  lemma NeverThere(t: Trail)
    requires Anchored(t, Twice()) && StartsLanded(Twice(), t.via.Keys, t.starts)
    ensures (forall s :: s in t.via ==> Trodden(s)) && forall id :: id in t.starts ==> Trodden(Spot(id, t.starts[id]))
  {
    hide Twice, TwoWays, Reachable, LandsFirst, Follow, LandsAt;
    TheCatalogs();
    forall s | s in t.via
      ensures Trodden(s)
    {
      assert AnchoredAt(t, Twice(), s);
      StartTrodden(t, s.id);
      EnteredAtStart(t, s);
    }
    forall id | id in t.starts
      ensures Trodden(Spot(id, t.starts[id]))
    {
      StartTrodden(t, id);
    }
  }

  lemma StartTrodden(t: Trail, id: Bytes)
    requires StartsLanded(Twice(), t.via.Keys, t.starts) && id in t.starts
    ensures Trodden(Spot(id, t.starts[id])) || (id == GONE && Spot(LOWER, 3) in t.via)
  {
    hide Twice, Reachable, LandsFirst;
    TheCatalogs();
    var l := Spot(id, t.starts[id]);
    assert Landing(Twice(), t.via.Keys, l);
    if l != Spot(Twice().root, ROOT_INODE) {
      var s: Spot, k: nat :| s in t.via.Keys && Reachable(Twice(), s) && LandsFirst(Twice(), s, k, l);
      OnlyFour(s);
      FirstLanding(s, k, l);
    }
  }

  lemma TroddenSound(s: Spot)
    requires Trodden(s)
    ensures Twice().Honest(s.id) && Twice().Opened(s.id).value.ordered && DirOk(Twice().Opened(s.id).value, s.ino)
  {
    TheCatalogs();
    AboveTurns();
    UnderTurns();
    assert Locators(Under(), 2) == [];
    var ns := Locators(Above(), 1);
    var ds := Entries(Above(), 1);
    assert ns == [NestedEntry(A, LOWER), NestedEntry(B, LOWER)];
    assert ds[0].name == A && ds[1].name == B;
  }

  lemma NoFileMet(t: Trail, tally: Tally)
    requires forall s :: s in t.via ==> Trodden(s)
    requires AllMet(Twice(), t.via.Keys, tally)
    ensures tally.checked == []
  {
    hide Twice, MetOtherwise;
    if tally.checked != [] {
      var f := tally.checked[0];
      assert MetAsFile(Twice(), t.via.Keys, f);
      var s: Spot, k: nat :| s in t.via.Keys && s.id == f.id && EntryIs(Twice(), s, k, f.ino, f.node);
      NoFileAt(s, k, f.ino, f.node);
      assert false;
    }
  }

  lemma NoFileAt(s: Spot, k: nat, ino: i64, n: Node)
    requires Trodden(s) && EntryIs(Twice(), s, k, ino, n)
    ensures n.typ == TYPE_DIR
  {
    TheCatalogs();
    AboveTurns();
    UnderTurns();
  }

  lemma NoSecondWay(t: Trail)
    requires Anchored(t, Twice()) && forall id :: id in t.starts ==> Trodden(Spot(id, t.starts[id]))
    ensures t.cycles == 0
  {
    hide Twice, Follow;
    forall id, p, q
      ensures !TwoWaysIn(Twice(), t, id, p, q)
    {
      if id in t.starts && p != q {
        if p != [] {
          NoStepsFrom(Spot(id, t.starts[id]), p);
        } else {
          NoStepsFrom(Spot(id, t.starts[id]), q);
        }
      }
    }
  }

  /** Whatever a walk of this volume leaves, nothing it has met is at fault. */
  lemma NothingMetAtFault(recs: seq<Bytes>, t: Trail, tally: Tally)
    requires PackIndex.Wide(recs) && Anchored(t, Twice()) && StartsLanded(Twice(), t.via.Keys, t.starts)
    requires AllMet(Twice(), t.via.Keys, tally)
    ensures !Faulty(Twice(), recs, t, tally.checked) && Spot(LOWER, 3) !in t.via && GONE !in t.starts
    ensures tally.checked == []
  {
    hide Twice, Anchored, StartsLanded, AllMet, DirOk, BadFile, ShardsOk, Volume.Honest;
    TheCatalogs();
    NeverThere(t);
    NoFileMet(t, tally);
    NoSecondWay(t);
    RootNodeThere();
    forall s | Trodden(s)
      ensures Twice().Honest(s.id) && !BadDir(Twice(), s) && !BadCatalogObject(Twice(), s.id)
    {
      TroddenSound(s);
    }
  }

  lemma RootNodeThere()
    ensures !NoRootNode(Twice())
  {
    TheCatalogs();
  }

  lemma ThereIsMore()
    ensures Reachable(Twice(), Spot(LOWER, 3)) && !DirOk(Under(), 3)
    ensures Reachable(Twice(), Spot(GONE, 4)) && !Twice().Honest(GONE)
  {
    hide Twice, Reachable, DirOk, Under, Volume.Honest;
    AllReachable();
    TheCatalogs();
    ThirdUnsound();
  }

  lemma ThirdUnsound()
    ensures !DirOk(Under(), 3)
  {
    var ds := Entries(Under(), 3);
    assert ds[0] == Dirent(A, 9, TYPE_FILE);
    assert !EntryOk(Under(), Locators(Under(), 3), ds[0]);
  }

  /**
    The check completes and finds nothing.  It has not walked the unsound directory the second
    transition point lands at, nor missed the catalog that leads to.
   */
  method PassesOver(index: PackIndex.Index) returns (w: Walker, complete: bool)
    requires index.Valid()
    ensures complete && w.Valid() && w.c.vol == Twice() && w.c.Clean()
    ensures Lawful(Above()) && Lawful(Under())
    ensures Reachable(Twice(), Spot(LOWER, 3)) && !DirOk(Under(), 3) && Spot(LOWER, 3) !in w.via
    ensures Reachable(Twice(), Spot(GONE, 4)) && !Twice().Honest(GONE) && GONE !in w.starts
    ensures !OneEntrance(Twice())
  {
    hide Walker.Valid, Faulty, Certified, Twice, AllMet, Anchored, StartsLanded, Reachable, DirOk, Above, Under, Over,
         SoundVolume, Volume.Honest, OneEntrance, Lawful;
    TheCatalogs();
    var made;
    made, complete := Check(Twice(), index, (i: nat) => true);
    w := made.value;
    w.Accounts();
    NothingMetAtFault(index.Recs(), w.Now(), w.Counts());
    ThereIsMore();
    TwoEntrances();
    BothReadersLawful();
  }

  lemma TwoEntrances()
    ensures !OneEntrance(Twice())
  {
    hide Twice, Above, Under, Entries, Locators, TurnOf, Reachable;
    TheCatalogs();
    AboveTurns();
    RootReachable(Twice());
    assert LandsAt(Twice(), Spot(UPPER, 1), 0, Spot(LOWER, 2));
    assert LandsAt(Twice(), Spot(UPPER, 1), 1, Spot(LOWER, 3));
    assert Entrance(Twice(), Spot(LOWER, 2)) && Entrance(Twice(), Spot(LOWER, 3));
  }
}
