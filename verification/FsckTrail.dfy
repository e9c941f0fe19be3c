/**
  The trail a walk leaves: which directories of which catalogs it has entered, by which steps, and
  what being finished with one means.  Everything here only ever grows.
 */
module FsckTrail {
  import opened Bytes
  import opened LittleEndian
  import opened FsckVolume
  import opened FsckReport

  /**
    via: the entry indices leading to each entered directory from where its catalog's descent began,
    and at: the path it was entered by; starts: where that descent began, for every catalog queued so
    far; told: what has been looked at.
   */
  datatype Trail = Trail(via: map<Spot, seq<nat>>, at: map<Spot, seq<Bytes>>, finished: set<Spot>, starts: map<Bytes, i64>,
                         seen: set<i64>, cycles: nat, told: set<Look>)

  ghost predicate Grew(a: Trail, b: Trail) {
    && (forall s :: s in a.via ==> s in b.via && b.via[s] == a.via[s])
    && (forall s :: s in a.at ==> s in b.at && b.at[s] == a.at[s])
    && (forall id :: id in a.starts ==> id in b.starts && b.starts[id] == a.starts[id])
    && a.finished <= b.finished && a.seen <= b.seen && a.cycles <= b.cycles && a.told <= b.told
  }

  /** What one entry of an entered directory asked for has been done, and every look it asked for taken. */
  ghost predicate EntryDone(t: Trail, r: Reader, s: Spot, k: nat)
    requires k < |Entries(r, s.ino)| && s in t.via
  {
    var d := Entries(r, s.ino)[k];
    && (r.stat(d.inode).Ok? ==> d.inode in t.seen)
    && s in t.at && Naming(s, k, t.at[s]) in t.told && (IsLink(r, s.ino, k) ==> Linking(s, k, t.at[s]) in t.told)
    && match TurnOf(r, Locators(r, s.ino), d)
       case Enters(c) => EntersDone(t, s, k, Spot(s.id, c), d.name)
       case Crosses(id) => id in t.starts && Crossing(s, k, t.at[s]) in t.told
       case BadLocator => Crossing(s, k, t.at[s]) in t.told
       case _ => true
  }

  /** Directory x was entered through entry k of s, or found to have been entered some other way. */
  ghost predicate EntersDone(t: Trail, s: Spot, k: nat, x: Spot, name: Bytes) {
    && s in t.via && s in t.at && x in t.via && (t.cycles == 0 ==> t.via[x] == t.via[s] + [k])
    && (t.via[x] == t.via[s] + [k] || Returning(x, t.at[s] + [name]) in t.told)
  }

  /** The first n entries are dealt with. */
  ghost predicate EntriesDone(t: Trail, r: Reader, s: Spot, n: nat)
    requires n <= |Entries(r, s.ino)| && s in t.via
  {
    forall k :: 0 <= k < n ==> EntryDone(t, r, s, k)
  }

  /** The first n locators of a directory have been looked at. */
  ghost predicate LocatorsLooked(t: Trail, s: Spot, n: nat) {
    s in t.at && forall k: nat :: k < n ==> Locating(s, k, t.at[s]) in t.told
  }

  ghost predicate SpotDone(t: Trail, vol: Volume, s: Spot) {
    && vol.Opened(s.id).Some? && s in t.via && s in t.at && Listing(s, t.at[s]) in t.told
    && LocatorsLooked(t, s, |Locators(vol.Opened(s.id).value, s.ino)|)
    && EntriesDone(t, vol.Opened(s.id).value, s, |Entries(vol.Opened(s.id).value, s.ino)|)
  }

  ghost predicate Settled(t: Trail, vol: Volume) {
    forall s :: s in t.finished ==> SpotDone(t, vol, s)
  }

  lemma GrewTransitive(a: Trail, b: Trail, c: Trail)
    requires Grew(a, b) && Grew(b, c)
    ensures Grew(a, c)
  {
  }

  lemma EntryStaysDone(a: Trail, b: Trail, r: Reader, s: Spot, k: nat)
    requires Grew(a, b) && s in a.via && k < |Entries(r, s.ino)| && EntryDone(a, r, s, k)
    ensures EntryDone(b, r, s, k)
  {
  }

  lemma EntriesStayDone(a: Trail, b: Trail, r: Reader, s: Spot, n: nat)
    requires Grew(a, b) && s in a.via && n <= |Entries(r, s.ino)| && EntriesDone(a, r, s, n)
    ensures EntriesDone(b, r, s, n)
  {
    hide EntryDone, Entries, Locators;
    forall k | 0 <= k < n
      ensures EntryDone(b, r, s, k)
    {
      EntryStaysDone(a, b, r, s, k);
    }
  }

  lemma StaysSettled(a: Trail, b: Trail, vol: Volume)
    requires Grew(a, b) && Settled(a, vol) && b.finished == a.finished
    ensures Settled(b, vol)
  {
    hide EntriesDone, Entries, Locators;
    forall s | s in b.finished
      ensures SpotDone(b, vol, s)
    {
      assert SpotDone(a, vol, s);
      var r := vol.Opened(s.id).value;
      EntriesStayDone(a, b, r, s, |Entries(r, s.ino)|);
    }
  }

  /** Finishing one more directory. */
  lemma Finishes(a: Trail, b: Trail, vol: Volume, s: Spot)
    requires Grew(a, b) && Settled(a, vol) && b.finished == a.finished + {s}
    requires SpotDone(a, vol, s)
    ensures Settled(b, vol)
  {
    hide EntriesDone, Entries, Locators;
    forall x | x in b.finished
      ensures SpotDone(b, vol, x)
    {
      assert SpotDone(a, vol, x);
      var r := vol.Opened(x.id).value;
      EntriesStayDone(a, b, r, x, |Entries(r, x.ino)|);
    }
  }

  // ---------- Paths within one catalog ----------

  /** Where a path of entry indices leads without leaving the catalog. */
  ghost function Follow(r: Reader, start: i64, steps: seq<nat>): Option<i64> {
    if steps == [] then Some(start)
    else match Follow(r, start, steps[..|steps| - 1])
      case None => None
      case Some(dir) =>
        var k := steps[|steps| - 1];
        if k >= |Entries(r, dir)| then None
        else match TurnOf(r, Locators(r, dir), Entries(r, dir)[k])
          case Enters(c) => Some(c)
          case _ => None
  }

  lemma FollowStep(r: Reader, start: i64, steps: seq<nat>, k: nat)
    ensures var dir := Follow(r, start, steps);
      Follow(r, start, steps + [k]) ==
      if dir.None? || k >= |Entries(r, dir.value)| then None
      else match TurnOf(r, Locators(r, dir.value), Entries(r, dir.value)[k]) case Enters(c) => Some(c) case _ => None
  {
    assert (steps + [k])[..|steps|] == steps;
  }

  /** Two different ways to one directory of a descended catalog. */
  ghost predicate TwoWays(vol: Volume, t: Trail) {
    exists id, p, q :: TwoWaysIn(vol, t, id, p, q)
  }

  ghost predicate TwoWaysIn(vol: Volume, t: Trail, id: Bytes, p: seq<nat>, q: seq<nat>) {
    && id in t.starts && vol.Opened(id).Some? && p != q
    && Follow(vol.Opened(id).value, t.starts[id], p).Some?
    && Follow(vol.Opened(id).value, t.starts[id], p) == Follow(vol.Opened(id).value, t.starts[id], q)
  }

  lemma TwoWaysStay(vol: Volume, a: Trail, b: Trail)
    requires Grew(a, b) && TwoWays(vol, a)
    ensures TwoWays(vol, b)
  {
    hide Follow;
    var id, p, q :| TwoWaysIn(vol, a, id, p, q);
    assert TwoWaysIn(vol, b, id, p, q);
  }

  ghost predicate AnchoredAt(t: Trail, vol: Volume, s: Spot) {
    && s in t.via && s.id in t.starts && vol.Opened(s.id).Some?
    && Follow(vol.Opened(s.id).value, t.starts[s.id], t.via[s]) == Some(s.ino)
  }

  /** Every entered directory is where its steps lead, and a cycle was found only where there are two ways. */
  ghost predicate Anchored(t: Trail, vol: Volume) {
    && (forall s :: s in t.via ==> AnchoredAt(t, vol, s))
    && (t.cycles > 0 ==> TwoWays(vol, t))
  }

  /** The walk is over: nothing entered is unfinished, and every openable catalog queued was begun. */
  ghost predicate Over(t: Trail, vol: Volume) {
    && Settled(t, vol) && Anchored(t, vol) && t.finished == t.via.Keys
    && (forall id :: id in t.starts && vol.Opened(id).Some? ==>
          Spot(id, t.starts[id]) in t.via && (t.cycles == 0 ==> t.via[Spot(id, t.starts[id])] == []))
  }

  /** Every directory reachable within a descended catalog has been walked; in a tree, by that one path. */
  lemma {:induction false} EverythingWalked(t: Trail, vol: Volume, id: Bytes, steps: seq<nat>)
    requires Over(t, vol) && id in t.starts && vol.Opened(id).Some?
    requires Follow(vol.Opened(id).value, t.starts[id], steps).Some?
    ensures var s := Spot(id, Follow(vol.Opened(id).value, t.starts[id], steps).value);
      s in t.finished && (t.cycles == 0 ==> t.via[s] == steps)
  {
    hide Entries, Locators, TurnOf;
    if steps != [] {
      var n := |steps| - 1;
      var r := vol.Opened(id).value;
      EverythingWalked(t, vol, id, steps[..n]);
      var dir := Follow(r, t.starts[id], steps[..n]).value;
      assert SpotDone(t, vol, Spot(id, dir));
      assert EntryDone(t, r, Spot(id, dir), steps[n]);
      assert steps == steps[..n] + [steps[n]];
    }
  }

  /**
    Tree shape, exactly: the walk reports no cycle if and only if every directory of every catalog it
    descended into is reached by one path of entries and no more.
   */
  lemma CyclesExactly(t: Trail, vol: Volume)
    requires Over(t, vol)
    ensures t.cycles == 0 <==> !TwoWays(vol, t)
  {
    hide Settled, Follow;
    if t.cycles == 0 && TwoWays(vol, t) {
      var id, p, q :| TwoWaysIn(vol, t, id, p, q);
      EverythingWalked(t, vol, id, p);
      EverythingWalked(t, vol, id, q);
      assert false;
    }
  }

  // ---------- Across catalogs ----------

  /**
    A chain of catalogs from the root's, each named by a transition point below where the descent into
    the one before it began.
   */
  ghost predicate Leads(vol: Volume, t: Trail, ids: seq<Bytes>) {
    && ids != [] && ids[0] == vol.root
    && forall i :: 0 < i < |ids| ==> CrossesTo(vol, t, ids[i - 1], ids[i])
  }

  /** Some directory below where the descent into catalog a began has a transition point to catalog b. */
  ghost predicate CrossesTo(vol: Volume, t: Trail, a: Bytes, b: Bytes) {
    a in t.starts && vol.Opened(a).Some? && exists steps, k :: TransitAt(vol.Opened(a).value, t.starts[a], steps, k, b)
  }

  ghost predicate TransitAt(r: Reader, start: i64, steps: seq<nat>, k: nat, b: Bytes) {
    var dir := Follow(r, start, steps);
    dir.Some? && k < |Entries(r, dir.value)| && TurnOf(r, Locators(r, dir.value), Entries(r, dir.value)[k]) == Crosses(b)
  }

  /** Every catalog such a chain leads to was queued. */
  lemma {:induction false} EverythingQueued(t: Trail, vol: Volume, ids: seq<Bytes>)
    requires Over(t, vol) && vol.root in t.starts && Leads(vol, t, ids)
    ensures ids[|ids| - 1] in t.starts
  {
    hide Over, CrossesTo;
    if |ids| > 1 {
      var n := |ids| - 1;
      EverythingQueued(t, vol, ids[..n]);
      CrossingQueued(t, vol, ids[n - 1], ids[n]);
    }
  }

  lemma CrossingQueued(t: Trail, vol: Volume, a: Bytes, b: Bytes)
    requires Over(t, vol) && CrossesTo(vol, t, a, b)
    ensures b in t.starts
  {
    hide Follow, Entries, Locators, TurnOf;
    var r := vol.Opened(a).value;
    var steps, k :| TransitAt(r, t.starts[a], steps, k, b);
    EverythingWalked(t, vol, a, steps);
    var s := Spot(a, Follow(r, t.starts[a], steps).value);
    assert SpotDone(t, vol, s);
    assert EntryDone(t, r, s, k);
  }

  // ---------- Where the entries of the volume lead ----------

  /** Where a path of entry indices leads from the root directory, across transition points. */
  ghost function Arrive(vol: Volume, hops: seq<nat>): Option<Spot> {
    if hops == [] then Some(Spot(vol.root, ROOT_INODE))
    else match Arrive(vol, hops[..|hops| - 1])
      case None => None
      case Some(s) => Hop(vol, s, hops[|hops| - 1])
  }

  ghost function Hop(vol: Volume, s: Spot, k: nat): Option<Spot> {
    match vol.Opened(s.id)
    case None => None
    case Some(r) =>
      if k >= |Entries(r, s.ino)| then None
      else match TurnOf(r, Locators(r, s.ino), Entries(r, s.ino)[k])
        case Enters(c) => Some(Spot(s.id, c))
        case Crosses(id) => Some(Spot(id, Entries(r, s.ino)[k].inode))
        case _ => None
  }

  ghost predicate Reachable(vol: Volume, s: Spot) {
    exists hops :: Arrive(vol, hops) == Some(s)
  }

  /** The names on the way, as far as the entries lead. */
  ghost function NamesAlong(vol: Volume, hops: seq<nat>): seq<Bytes> {
    if hops == [] then []
    else
      var front := hops[..|hops| - 1];
      NamesAlong(vol, front) + (match Arrive(vol, front) case None => [] case Some(s) => NameOf(vol, s, hops[|hops| - 1]))
  }

  ghost function NameOf(vol: Volume, s: Spot, k: nat): seq<Bytes> {
    match vol.Opened(s.id)
    case None => []
    case Some(r) => if k < |Entries(r, s.ino)| then [Entries(r, s.ino)[k].name] else []
  }

  /** A path of names that leads to s from the root directory. */
  ghost predicate PathTo(vol: Volume, s: Spot, path: seq<Bytes>) {
    exists hops :: Arrive(vol, hops) == Some(s) && NamesAlong(vol, hops) == path
  }

  lemma RootPath(vol: Volume)
    ensures PathTo(vol, Spot(vol.root, ROOT_INODE), [])
  {
    assert Arrive(vol, []) == Some(Spot(vol.root, ROOT_INODE)) && NamesAlong(vol, []) == [];
  }

  lemma HopPath(vol: Volume, s: Spot, path: seq<Bytes>, k: nat)
    requires PathTo(vol, s, path) && Hop(vol, s, k).Some?
    ensures PathTo(vol, Hop(vol, s, k).value, path + NameOf(vol, s, k))
  {
    hide Hop, NameOf;
    var hops :| Arrive(vol, hops) == Some(s) && NamesAlong(vol, hops) == path;
    var all := hops + [k];
    assert all[..|all| - 1] == hops;
    assert Arrive(vol, all) == Hop(vol, s, k) && NamesAlong(vol, all) == path + NameOf(vol, s, k);
  }

  lemma RootReachable(vol: Volume)
    ensures Reachable(vol, Spot(vol.root, ROOT_INODE))
  {
    assert Arrive(vol, []) == Some(Spot(vol.root, ROOT_INODE));
  }

  lemma HopReachable(vol: Volume, s: Spot, k: nat)
    requires Reachable(vol, s) && Hop(vol, s, k).Some?
    ensures Reachable(vol, Hop(vol, s, k).value)
  {
    hide Hop;
    var hops :| Arrive(vol, hops) == Some(s);
    var all := hops + [k];
    assert all[..|all| - 1] == hops;
    assert Arrive(vol, all) == Hop(vol, s, k);
  }

  lemma {:induction false} FollowReachable(vol: Volume, id: Bytes, start: i64, steps: seq<nat>)
    requires Reachable(vol, Spot(id, start)) && vol.Opened(id).Some? && Follow(vol.Opened(id).value, start, steps).Some?
    ensures Reachable(vol, Spot(id, Follow(vol.Opened(id).value, start, steps).value))
  {
    hide Reachable;
    if steps != [] {
      var n := |steps| - 1;
      FollowReachable(vol, id, start, steps[..n]);
      HopReachable(vol, Spot(id, Follow(vol.Opened(id).value, start, steps[..n]).value), steps[n]);
    }
  }

  // ---------- Transition points ----------

  /** Entry k of directory s is a transition point, and lands at l. */
  ghost predicate LandsAt(vol: Volume, s: Spot, k: nat, l: Spot) {
    && vol.Opened(s.id).Some? && k < |Entries(vol.Opened(s.id).value, s.ino)|
    && var r := vol.Opened(s.id).value;
    && TurnOf(r, Locators(r, s.ino), Entries(r, s.ino)[k]) == Crosses(l.id) && Entries(r, s.ino)[k].inode == l.ino
  }

  /** And no earlier entry of s is a transition point into that catalog. */
  ghost predicate LandsFirst(vol: Volume, s: Spot, k: nat, l: Spot) {
    LandsAt(vol, s, k, l) && forall j: nat, x: Spot :: j < k && LandsAt(vol, s, j, x) ==> x.id != l.id
  }

  /** Where the root's descent begins, or where one of these directories first leads into a catalog. */
  ghost predicate Landing(vol: Volume, entered: set<Spot>, l: Spot) {
    || l == Spot(vol.root, ROOT_INODE)
    || exists s: Spot, k: nat :: s in entered && Reachable(vol, s) && LandsFirst(vol, s, k, l)
  }

  lemma LandsHop(vol: Volume, s: Spot, k: nat, l: Spot)
    requires LandsAt(vol, s, k, l)
    ensures Hop(vol, s, k) == Some(l)
  {
  }

  lemma LandingReachable(vol: Volume, entered: set<Spot>, l: Spot)
    requires Landing(vol, entered, l)
    ensures Reachable(vol, l)
  {
    hide Reachable, LandsAt, Hop;
    RootReachable(vol);
    if l != Spot(vol.root, ROOT_INODE) {
      var s: Spot, k: nat :| s in entered && Reachable(vol, s) && LandsFirst(vol, s, k, l);
      LandsHop(vol, s, k, l);
      HopReachable(vol, s, k);
    }
  }

  /** Every descent began where some directory entered first leads into its catalog. */
  ghost predicate StartsLanded(vol: Volume, entered: set<Spot>, starts: map<Bytes, i64>) {
    forall id :: id in starts ==> Landing(vol, entered, Spot(id, starts[id]))
  }

  lemma LandedStays(vol: Volume, a: set<Spot>, b: set<Spot>, starts: map<Bytes, i64>)
    requires a <= b && StartsLanded(vol, a, starts)
    ensures StartsLanded(vol, b, starts)
  {
    hide Reachable, LandsFirst;
    forall id | id in starts
      ensures Landing(vol, b, Spot(id, starts[id]))
    {
      assert Landing(vol, a, Spot(id, starts[id]));
    }
  }

  /** The transition points before entry k of a directory have their catalogs queued. */
  ghost predicate EarlierQueued(vol: Volume, starts: map<Bytes, i64>, s: Spot, k: nat) {
    forall j: nat, x: Spot :: j < k && LandsAt(vol, s, j, x) ==> x.id in starts
  }

  lemma DoneQueued(t: Trail, vol: Volume, r: Reader, s: Spot, k: nat)
    requires vol.Opened(s.id) == Some(r) && s in t.via && k <= |Entries(r, s.ino)| && EntriesDone(t, r, s, k)
    ensures EarlierQueued(vol, t.starts, s, k)
  {
    hide Entries, Locators, TurnOf;
    forall j: nat, x: Spot | j < k && LandsAt(vol, s, j, x)
      ensures x.id in t.starts
    {
      assert EntryDone(t, r, s, j);
    }
  }

  /** So whatever was entered can be reached from the root. */
  lemma EnteredReachable(vol: Volume, t: Trail, s: Spot)
    requires Anchored(t, vol) && StartsLanded(vol, t.via.Keys, t.starts) && s in t.via
    ensures Reachable(vol, s)
  {
    hide Follow, Reachable, TwoWays, Landing;
    assert AnchoredAt(t, vol, s);
    LandingReachable(vol, t.via.Keys, Spot(s.id, t.starts[s.id]));
    FollowReachable(vol, s.id, t.starts[s.id], t.via[s]);
  }

  lemma OneMoreStart(vol: Volume, t: Trail, s: Spot, k: nat, l: Spot)
    requires Anchored(t, vol) && StartsLanded(vol, t.via.Keys, t.starts) && s in t.via && LandsAt(vol, s, k, l)
    requires l.id !in t.starts && EarlierQueued(vol, t.starts, s, k)
    ensures StartsLanded(vol, t.via.Keys, t.starts[l.id := l.ino])
  {
    hide Anchored, Reachable, LandsAt;
    EnteredReachable(vol, t, s);
    assert LandsFirst(vol, s, k, l);
  }
}
