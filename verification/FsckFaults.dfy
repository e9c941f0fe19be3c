/** What fsck finds: each finding stands for something wrong, and everything wrong that is met is found. */
module FsckFaults {
  import opened Bytes
  import opened LittleEndian
  import opened CatalogRecords
  import PackIndex
  import opened FsckVolume
  import opened FsckReport
  import opened FsckTrail
  import opened FsckSteps
  import opened FsckTally

  ghost predicate BadCatalogObject(vol: Volume, id: Bytes) {
    !vol.Honest(id) || (vol.Opened(id).Some? && !vol.Opened(id).value.ordered)
  }

  ghost predicate BadDir(vol: Volume, s: Spot) {
    vol.Opened(s.id).Some? && !DirOk(vol.Opened(s.id).value, s.ino)
  }

  ghost predicate BadFile(vol: Volume, recs: seq<Bytes>, f: Checked)
    requires PackIndex.Wide(recs)
  {
    vol.Opened(f.id).Some? && !FileOk(vol, recs, vol.Opened(f.id).value, f.node)
  }

  ghost predicate NoRootNode(vol: Volume) {
    vol.Opened(vol.root).Some? && vol.Opened(vol.root).value.stat(ROOT_INODE).Err?
  }

  /**
    Something is wrong with a shard, the root, a catalog queued, a directory entered or a file
    checked, or a directory was reached twice.
   */
  ghost predicate Faulty(vol: Volume, recs: seq<Bytes>, t: Trail, checked: seq<Checked>)
    requires PackIndex.Wide(recs)
  {
    || !ShardsOk(vol) || NoRootNode(vol) || t.cycles > 0
    || (exists id :: id in t.starts && BadCatalogObject(vol, id))
    || (exists s :: s in t.via && BadDir(vol, s))
    || (exists i :: 0 <= i < |checked| && BadFile(vol, recs, checked[i]))
  }

  /** A fault stays one. */
  lemma FaultStays(vol: Volume, recs: seq<Bytes>, a: Trail, b: Trail, checked: seq<Checked>, more: seq<Checked>)
    requires PackIndex.Wide(recs) && Grew(a, b) && checked <= more && Faulty(vol, recs, a, checked)
    ensures Faulty(vol, recs, b, more)
  {
    hide ShardsOk, NoRootNode, BadCatalogObject, BadDir, BadFile;
    if i :| 0 <= i < |checked| && BadFile(vol, recs, checked[i]) {
      assert BadFile(vol, recs, more[i]);
    }
  }

  // ---------- What each look was at ----------

  /** Entry k of s leads into directory x by this path, and x was entered some other way. */
  ghost predicate SecondWay(vol: Volume, t: Trail, s: Spot, k: nat, x: Spot, path: seq<Bytes>) {
    && WayTo(vol, t.via, t.at, s, k, x, path) && x in t.via && t.via[x] != t.via[s] + [k]
  }

  ghost predicate WayTo(vol: Volume, via: map<Spot, seq<nat>>, at: map<Spot, seq<Bytes>>, s: Spot, k: nat, x: Spot,
                        path: seq<Bytes>) {
    && s in via && s in at && s.id == x.id && vol.Opened(s.id).Some?
    && var r := vol.Opened(s.id).value;
    && k < |Entries(r, s.ino)| && TurnOf(r, Locators(r, s.ino), Entries(r, s.ino)[k]) == Enters(x.ino)
    && path == at[s] + [Entries(r, s.ino)[k].name]
  }

  /** Entry k of an entered directory leads to this file, by this path. */
  ghost predicate FileAt(vol: Volume, t: Trail, s: Spot, k: nat, f: Checked, path: seq<Bytes>) {
    && s in t.at && s.id == f.id && EntryIs(vol, s, k, f.ino, f.node)
    && path == t.at[s] + [Entries(vol.Opened(s.id).value, s.ino)[k].name]
  }

  /** What was looked at had been met, and the path is one it was met by. */
  ghost predicate About(vol: Volume, t: Trail, checked: seq<Checked>, look: Look) {
    match look
    case Opening => true
    case RootNode => true
    case Fetching(id, path) => id in t.starts && PathTo(vol, Spot(id, t.starts[id]), path)
    case Ordering(id, path) => id in t.starts && PathTo(vol, Spot(id, t.starts[id]), path)
    case Returning(x, path) => t.cycles > 0 && exists s: Spot, k: nat :: SecondWay(vol, t, s, k, x, path)
    case Reading(f, path) => f in checked && exists s: Spot, k: nat :: FileAt(vol, t, s, k, f, path)
    case _ => look.s in t.at && t.at[look.s] == look.path && LooksWithin(vol, look)
  }

  /** The locator or entry is there, and what is read as a link is one. */
  ghost predicate LooksWithin(vol: Volume, look: Look)
    requires look.Listing? || look.Locating? || look.Naming? || look.Crossing? || look.Linking?
  {
    vol.Opened(look.s.id).Some?
    && var r := vol.Opened(look.s.id).value;
    match look
    case Listing(_, _) => true
    case Locating(s, k, _) => k < |Locators(r, s.ino)|
    case Linking(s, k, _) => k < |Entries(r, s.ino)| && IsLink(r, s.ino, k)
    case _ => look.k < |Entries(r, look.s.ino)|
  }

  ghost predicate Heard(vol: Volume, t: Trail, checked: seq<Checked>) {
    && (forall look :: look in t.told ==> About(vol, t, checked, look))
    && t.at.Keys == t.via.Keys && forall s :: s in t.at ==> PathTo(vol, s, t.at[s])
  }

  lemma AboutStays(vol: Volume, a: Trail, b: Trail, checked: seq<Checked>, more: seq<Checked>, look: Look)
    requires Grew(a, b) && checked <= more && About(vol, a, checked, look)
    ensures About(vol, b, more, look)
  {
    hide PathTo, EntryIs, TurnOf, Entries, LooksWithin;
    if look.Returning? {
      var s: Spot, k: nat :| SecondWay(vol, a, s, k, look.s, look.path);
      assert SecondWay(vol, b, s, k, look.s, look.path);
    } else if look.Reading? {
      var s: Spot, k: nat :| FileAt(vol, a, s, k, look.f, look.path);
      assert FileAt(vol, b, s, k, look.f, look.path);
    }
  }

  /** Growing without entering anything, perhaps by one more look. */
  lemma HeardStays(vol: Volume, a: Trail, b: Trail, checked: seq<Checked>, more: seq<Checked>, looks: set<Look>)
    requires Heard(vol, a, checked) && Grew(a, b) && checked <= more && b.told == a.told + looks
    requires b.at == a.at && b.via.Keys == a.via.Keys && forall look :: look in looks ==> About(vol, b, more, look)
    ensures Heard(vol, b, more)
  {
    hide PathTo, About, Grew;
    forall look | look in a.told
      ensures About(vol, b, more, look)
    {
      AboutStays(vol, a, b, checked, more, look);
    }
  }

  lemma NotYetAt(vol: Volume, t: Trail, checked: seq<Checked>, s: Spot)
    requires Heard(vol, t, checked) && s !in t.via
    ensures s !in t.at
  {
  }

  lemma EnteredPath(vol: Volume, t: Trail, checked: seq<Checked>, s: Spot)
    requires Heard(vol, t, checked) && s in t.at
    ensures PathTo(vol, s, t.at[s])
  {
  }

  lemma HeardEntering(vol: Volume, a: Trail, b: Trail, checked: seq<Checked>, s: Spot, steps: seq<nat>, path: seq<Bytes>)
    requires Heard(vol, a, checked) && Grew(a, b) && PathTo(vol, s, path)
    requires b == a.(via := a.via[s := steps], at := a.at[s := path])
    ensures Heard(vol, b, checked)
  {
    hide PathTo, About, Grew;
    forall look | look in a.told
      ensures About(vol, b, checked, look)
    {
      AboutStays(vol, a, b, checked, checked, look);
    }
  }

  lemma ReturningAbout(vol: Volume, t: Trail, checked: seq<Checked>, s: Spot, k: nat, x: Spot, steps: seq<nat>,
                       path: seq<Bytes>)
    requires s in t.via && steps == t.via[s] + [k] && x in t.via && t.via[x] != steps && t.cycles > 0
    requires WayTo(vol, t.via, t.at, s, k, x, path)
    ensures About(vol, t, checked, Returning(x, path))
  {
    hide TurnOf, Entries, Locators;
    assert SecondWay(vol, t, s, k, x, path);
  }

  lemma SeenHeard(vol: Volume, t: Trail, checked: seq<Checked>, ino: i64)
    requires Heard(vol, t, checked)
    ensures Heard(vol, t.(seen := t.seen + {ino}), checked)
  {
    hide Heard;
    HeardStays(vol, t, t.(seen := t.seen + {ino}), checked, checked, {});
  }

  /** Every file checked has been looked at. */
  ghost predicate AllRead(checked: seq<Checked>, looks: seq<Look>) {
    forall f :: f in checked ==> exists path :: Reading(f, path) in looks
  }

  lemma OneMoreRead(checked: seq<Checked>, looks: seq<Look>, f: Checked, path: seq<Bytes>)
    requires AllRead(checked, looks)
    ensures AllRead(checked + [f], looks + [Reading(f, path)])
  {
    forall g | g in checked + [f]
      ensures exists p :: Reading(g, p) in looks + [Reading(f, path)]
    {
      if g in checked {
        var p :| Reading(g, p) in looks;
        assert Reading(g, p) in looks + [Reading(f, path)];
      } else {
        assert Reading(g, path) in looks + [Reading(f, path)];
      }
    }
  }

  lemma StillRead(checked: seq<Checked>, looks: seq<Look>, look: Look)
    requires AllRead(checked, looks)
    ensures AllRead(checked, looks + [look])
  {
    forall g | g in checked
      ensures exists p :: Reading(g, p) in looks + [look]
    {
      var p :| Reading(g, p) in looks;
      assert Reading(g, p) in looks + [look];
    }
  }

  /** One more file checked, with its look to come. */
  lemma FileHeard(vol: Volume, a: Trail, b: Trail, checked: seq<Checked>, f: Checked, s: Spot, k: nat, path: seq<Bytes>)
    requires Heard(vol, a, checked) && b == a.(seen := a.seen + {f.ino}) && FileAt(vol, a, s, k, f, path)
    ensures Heard(vol, b, checked + [f]) && About(vol, b, checked + [f], Reading(f, path))
  {
    hide Heard, EntryIs;
    HeardStays(vol, a, b, checked, checked + [f], {});
    assert FileAt(vol, b, s, k, f, path);
  }

  /** What one more look leaves of every account. */
  lemma LookAccounts(vol: Volume, t: Trail, checked: seq<Checked>, look: Look)
    requires Settled(t, vol) && Anchored(t, vol) && Heard(vol, t, checked) && About(vol, t, checked, look)
    ensures var now := t.(told := t.told + {look});
      Quiet(t, now) && Settled(now, vol) && Anchored(now, vol) && Heard(vol, now, checked)
  {
    hide Settled, Anchored, Heard, About;
    var now := t.(told := t.told + {look});
    LookKeeps(t, vol, look);
    AboutStays(vol, t, now, checked, checked, look);
    HeardStays(vol, t, now, checked, checked, {look});
  }

  /** What queueing one more catalog leaves of every account. */
  lemma QueueAccounts(vol: Volume, t: Trail, checked: seq<Checked>, id: Bytes, ino: i64)
    requires Settled(t, vol) && Anchored(t, vol) && Heard(vol, t, checked) && id !in t.starts
    ensures var now := t.(starts := t.starts[id := ino]);
      Quiet(t, now) && Settled(now, vol) && Anchored(now, vol) && Heard(vol, now, checked)
  {
    hide Settled, Anchored, Heard;
    QueueKeeps(t, vol, id, ino);
    HeardStays(vol, t, t.(starts := t.starts[id := ino]), checked, checked, {});
  }

  /** What finishing one more directory leaves of every account. */
  lemma FinishAccounts(vol: Volume, t: Trail, checked: seq<Checked>, s: Spot)
    requires Settled(t, vol) && Anchored(t, vol) && Heard(vol, t, checked) && SpotDone(t, vol, s)
    ensures var now := t.(finished := t.finished + {s});
      Grew(t, now) && Settled(now, vol) && Anchored(now, vol) && Heard(vol, now, checked)
  {
    hide Settled, AnchoredAt, TwoWays, Heard, SpotDone;
    var now := t.(finished := t.finished + {s});
    Finishes(t, now, vol, s);
    HeardStays(vol, t, now, checked, checked, {});
    AnchorsStay(t, now, vol);
    if now.cycles > 0 {
      TwoWaysStay(vol, t, now);
    }
  }

  /** What entering one more directory leaves of every account. */
  lemma EnterAccounts(vol: Volume, t: Trail, checked: seq<Checked>, counts: Tally, s: Spot, steps: seq<nat>,
                      path: seq<Bytes>)
    requires Settled(t, vol) && Anchored(t, vol) && Untrodden(t, s.id, steps) && s !in t.via && s !in t.at
    requires Heard(vol, t, checked) && PathTo(vol, s, path) && AllMet(vol, t.via.Keys, counts)
    requires StartsLanded(vol, t.via.Keys, t.starts) && s.id in t.starts && vol.Opened(s.id).Some?
    requires Follow(vol.Opened(s.id).value, t.starts[s.id], steps) == Some(s.ino)
    ensures var now := t.(via := t.via[s := steps], at := t.at[s := path]);
      && Settled(now, vol) && Anchored(now, vol) && Inside(t, now, s, steps) && Heard(vol, now, checked)
      && (forall l: nat :: Untrodden(now, s.id, steps + [l])) && AllMet(vol, now.via.Keys, counts)
      && StartsLanded(vol, now.via.Keys, t.starts)
  {
    hide Settled, Anchored, Untrodden, Inside, Heard, PathTo, AllMet, StartsLanded, Follow;
    var now := t.(via := t.via[s := steps], at := t.at[s := path]);
    EnterInside(t, now, vol, s, steps, path);
    InsideGrew(t, now, s, steps);
    HeardEntering(vol, t, now, checked, s, steps, path);
    MetStays(vol, t.via.Keys, now.via.Keys, counts);
    LandedStays(vol, t.via.Keys, now.via.Keys, t.starts);
  }

  /** A finding is never made up: what was looked at is at fault. */
  lemma FindingIsFault(vol: Volume, recs: seq<Bytes>, t: Trail, checked: seq<Checked>, look: Look)
    requires PackIndex.Wide(recs) && About(vol, t, checked, look) && t.at.Keys == t.via.Keys && vol.root in t.starts
    requires Findings(vol, recs, look) != []
    ensures Faulty(vol, recs, t, checked)
  {
    hide PathTo, ShardsOk, DirOk, FileOk, Findings, SecondWay, FileAt, LooksWithin, Volume.Honest;
    if look.Opening? {
      OpeningFinds(vol, recs);
    } else if look.RootNode? {
      CatalogFinds(vol, recs, vol.root, []);
    } else if look.Fetching? || look.Ordering? {
      CatalogFinds(vol, recs, look.id, look.path);
    } else if look.Reading? {
      ReadingFault(vol, recs, checked, look.f, look.path);
    } else if !look.Returning? {
      DirFinding(vol, recs, look);
    }
  }

  lemma ReadingFault(vol: Volume, recs: seq<Bytes>, checked: seq<Checked>, f: Checked, path: seq<Bytes>)
    requires PackIndex.Wide(recs) && f in checked && Findings(vol, recs, Reading(f, path)) != []
    ensures exists i :: 0 <= i < |checked| && BadFile(vol, recs, checked[i])
  {
    hide FileFindings, FileOk;
    var i :| 0 <= i < |checked| && checked[i] == f;
    FileSilent(vol, recs, vol.Opened(f.id).value, f.node, InTree(path));
    assert BadFile(vol, recs, checked[i]);
  }

  lemma DirFinding(vol: Volume, recs: seq<Bytes>, look: Look)
    requires PackIndex.Wide(recs) && (look.Listing? || look.Locating? || look.Naming? || look.Crossing? || look.Linking?)
    requires LooksWithin(vol, look) && Findings(vol, recs, look) != []
    ensures BadDir(vol, look.s)
  {
    hide Findings, DirOk;
    DirSilent(vol, recs, look.s, look.path);
    if !look.Listing? && !look.Locating? {
      assert !EntrySilent(vol, recs, look.s, look.k, look.path);
    }
  }

  // ---------- A sound volume ----------

  ghost predicate FilesSoundIn(vol: Volume, recs: seq<Bytes>, s: Spot)
    requires PackIndex.Wide(recs)
  {
    forall k: nat, ino: i64, n: Node :: EntryIs(vol, s, k, ino, n) && n.typ == TYPE_FILE ==>
      FileOk(vol, recs, vol.Opened(s.id).value, n)
  }

  /** Every directory that entries lead to from the root is sound, in an honest catalog in order, its files too. */
  ghost predicate SoundAt(vol: Volume, recs: seq<Bytes>, s: Spot)
    requires PackIndex.Wide(recs)
  {
    && vol.Honest(s.id) && vol.Opened(s.id).value.ordered && DirOk(vol.Opened(s.id).value, s.ino)
    && FilesSoundIn(vol, recs, s)
  }

  /** From nowhere do two paths within one catalog meet. */
  ghost predicate OneWay(vol: Volume, s: Spot) {
    vol.Opened(s.id).Some? ==> forall p, q :: p != q ==> !Meet(vol.Opened(s.id).value, s.ino, p, q)
  }

  ghost predicate Meet(r: Reader, start: i64, p: seq<nat>, q: seq<nat>) {
    Follow(r, start, p).Some? && Follow(r, start, p) == Follow(r, start, q)
  }

  /** Nothing that can be reached from the root is wrong, and no shard. */
  ghost predicate SoundVolume(vol: Volume, recs: seq<Bytes>)
    requires PackIndex.Wide(recs)
  {
    && ShardsOk(vol) && !NoRootNode(vol)
    && forall s :: Reachable(vol, s) ==> SoundAt(vol, recs, s) && OneWay(vol, s)
  }

  /** Whatever a walk has met of it so far, none of it is at fault. */
  lemma SoundNotFaulty(vol: Volume, recs: seq<Bytes>, t: Trail, tally: Tally)
    requires PackIndex.Wide(recs) && SoundVolume(vol, recs) && Anchored(t, vol)
    requires StartsLanded(vol, t.via.Keys, t.starts)
    requires AllMet(vol, t.via.Keys, tally)
    ensures !Faulty(vol, recs, t, tally.checked)
  {
    hide ShardsOk, NoRootNode, Reachable, DirOk, FileOk, Follow, EntryIs, TwoWays, OneWay, Landing;
    SoundTree(vol, recs, t);
    forall id | id in t.starts
      ensures !BadCatalogObject(vol, id)
    {
      LandingReachable(vol, t.via.Keys, Spot(id, t.starts[id]));
      assert SoundAt(vol, recs, Spot(id, t.starts[id]));
    }
    forall s | s in t.via
      ensures !BadDir(vol, s)
    {
      EnteredReachable(vol, t, s);
      assert SoundAt(vol, recs, s);
    }
    forall i | 0 <= i < |tally.checked|
      ensures !BadFile(vol, recs, tally.checked[i])
    {
      SoundFiles(vol, recs, t, tally, i);
    }
  }

  lemma SoundTree(vol: Volume, recs: seq<Bytes>, t: Trail)
    requires PackIndex.Wide(recs) && SoundVolume(vol, recs) && StartsLanded(vol, t.via.Keys, t.starts)
    ensures !TwoWays(vol, t)
  {
    hide ShardsOk, NoRootNode, Reachable, SoundAt, Follow, Landing;
    forall id, p, q
      ensures !TwoWaysIn(vol, t, id, p, q)
    {
      if id in t.starts && vol.Opened(id).Some? && p != q {
        LandingReachable(vol, t.via.Keys, Spot(id, t.starts[id]));
        assert OneWay(vol, Spot(id, t.starts[id]));
        assert !Meet(vol.Opened(id).value, t.starts[id], p, q);
      }
    }
  }

  lemma SoundFiles(vol: Volume, recs: seq<Bytes>, t: Trail, tally: Tally, i: nat)
    requires PackIndex.Wide(recs) && SoundVolume(vol, recs) && Anchored(t, vol)
    requires StartsLanded(vol, t.via.Keys, t.starts)
    requires AllMet(vol, t.via.Keys, tally) && i < |tally.checked|
    ensures !BadFile(vol, recs, tally.checked[i])
  {
    hide ShardsOk, NoRootNode, Reachable, DirOk, FileOk, Follow, EntryIs, Anchored, StartsLanded, OneWay, MetOtherwise;
    var f := tally.checked[i];
    assert MetAsFile(vol, t.via.Keys, f);
    var s: Spot, k: nat :| s in t.via.Keys && s.id == f.id && EntryIs(vol, s, k, f.ino, f.node);
    EnteredReachable(vol, t, s);
    assert SoundAt(vol, recs, s);
  }
}
