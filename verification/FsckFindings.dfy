/**
  What a check reports, fault by fault: everything wrong with anything it has met is reported, at its
  place and by its kind, and nothing else is.
 */
module FsckFindings {
  import opened Bytes
  import opened LittleEndian
  import opened CatalogRecords
  import opened StaticQueries
  import PackIndex
  import opened FsckVolume
  import opened FsckReport
  import opened FsckTrail
  import opened FsckSteps
  import opened FsckTally
  import opened FsckQueue
  import opened FsckFaults

  // ---------- Faults, by kind ----------

  /** A catalog or shard object that is in no pack, does not open, or hashes to something else. */
  ghost predicate ObjectFault(vol: Volume, id: Bytes, kind: Kind, missing: Kind, bad: Kind) {
    || (kind == missing && id !in vol.objects)
    || (kind == bad && id in vol.objects && vol.objects[id].Unusable?)
    || (kind == WrongIdentity && id in vol.objects
        && if vol.objects[id].Usable? then !vol.objects[id].honest else vol.objects[id].mismatch)
  }

  /** An inverted or overlapping range, or the object, charged to the first shard that names it. */
  ghost predicate ShardFault(vol: Volume, k: nat, kind: Kind)
    requires k < |vol.shards|
  {
    var sh := vol.shards[k];
    || (kind == ShardRouting && (sh.first > sh.last || (k > 0 && sh.first <= vol.shards[k - 1].last)))
    || (FirstNaming(vol, k) && ObjectFault(vol, sh.identity, kind, MissingShard, BadShard))
  }

  ghost predicate CatalogFault(vol: Volume, id: Bytes, kind: Kind) {
    || ObjectFault(vol, id, kind, MissingCatalog, BadCatalog)
    || (kind == BadCatalog && vol.Opened(id).Some? && !vol.Opened(id).value.ordered)
  }

  /** Of the entry itself. */
  ghost predicate EntryFault(r: Reader, ns: seq<NestedEntry>, d: Dirent, kind: Kind) {
    match r.stat(d.inode)
    case Err(e) => kind == if e == NotExist then DanglingDirent else BadCatalog
    case Ok(n) =>
      || (kind == TypeMismatch && n.typ != d.typ)
      || (kind == ContentRows && n.typ == 3 && r.symlink(d.inode).Err?)
      || (kind == Transition && n.typ == 2 && Locator(ns, d.name).Some? && |Locator(ns, d.name).value| != 32)
  }

  /** A chunk in no listed pack is missing; one stored at another length is a bad reference, and so is nonsense. */
  ghost predicate ExtentFault(recs: seq<Bytes>, e: FileExtent, kind: Kind)
    requires PackIndex.Wide(recs)
  {
    var sized := e.llen >= 0 && e.clen >= 0 && 0 <= e.offset <= 0x7fff_ffff_ffff_ffff - e.llen;
    match e.identity
    case None => kind == ChunkRefs && !sized
    case Some(id) =>
      if !sized || |id| != 32 then kind == ChunkRefs
      else if !PackIndex.Indexed(recs, id) then kind == MissingChunk
      else kind == ChunkRefs && !PackIndex.Placed(recs, id, e.clen)
  }

  ghost predicate ContentFault(recs: seq<Bytes>, content: Reader, n: Node, kind: Kind)
    requires PackIndex.Wide(recs)
  {
    match content.inline(n.inode)
    case Err(_) => kind == ContentRows
    case Ok(Some(data)) => kind == ContentRows && |data| != n.length
    case Ok(None) => match content.chunks(n.inode)
      case Err(_) => kind == ChunkRefs
      case Ok(None) => kind == ContentRows && n.length > 0
      case Ok(Some(es)) => exists i :: 0 <= i < |es| && ExtentFault(recs, es[i], kind)
  }

  ghost predicate FileFault(vol: Volume, recs: seq<Bytes>, r: Reader, n: Node, kind: Kind)
    requires PackIndex.Wide(recs)
  {
    match Route(vol, r, n)
    case NoShard => kind == ShardRouting
    case ShardUnusable => false
    case NoRecord => kind == ShardRouting
    case Content(content, length) => (kind == ShardRouting && length != n.length) || ContentFault(recs, content, n, kind)
  }

  // ---------- Findings are faults ----------

  lemma ObjectReports(vol: Volume, id: Bytes, at: Where, missing: Kind, bad: Kind, p: Problem)
    ensures p in ObjectFindings(vol, id, at, missing, bad) <==> p.at == at && ObjectFault(vol, id, p.kind, missing, bad)
  {
  }

  lemma ShardReports(vol: Volume, k: nat, p: Problem)
    requires k < |vol.shards|
    ensures p in ShardFindings(vol, k) <==>
      p.at == InShard(vol.shards[k].first, vol.shards[k].last) && ShardFault(vol, k, p.kind)
  {
    hide ObjectFindings, ObjectFault;
    ObjectReports(vol, vol.shards[k].identity, InShard(vol.shards[k].first, vol.shards[k].last), MissingShard, BadShard, p);
  }

  lemma {:induction false} ShardsReport(vol: Volume, n: nat, p: Problem)
    requires n <= |vol.shards|
    ensures p in ShardsFindings(vol, n) <==> exists k: nat :: k < n && p in ShardFindings(vol, k)
  {
    hide ShardFindings;
    if n > 0 {
      ShardsReport(vol, n - 1, p);
    }
  }

  lemma ExtentReports(recs: seq<Bytes>, e: FileExtent, at: Where, p: Problem)
    requires PackIndex.Wide(recs)
    ensures p in ExtentFindings(recs, e, at) <==> p.at == at && ExtentFault(recs, e, p.kind)
    ensures |ExtentFindings(recs, e, at)| == if ExtentOk(recs, e) then 0 else 1
  {
    ExtentSilent(recs, e, at);
    hide PackIndex.Indexed, PackIndex.Placed;
  }

  /** One finding for each extent that is not sound: none is passed over for another at the same path. */
  lemma {:induction false} ExtentsReport(recs: seq<Bytes>, es: seq<FileExtent>, at: Where, p: Problem)
    requires PackIndex.Wide(recs)
    ensures p in ExtentsFindings(recs, es, at) <==> p.at == at && exists i :: 0 <= i < |es| && ExtentFault(recs, es[i], p.kind)
    ensures |ExtentsFindings(recs, es, at)| == |Unsound(recs, es)|
  {
    hide ExtentFindings, ExtentFault, ExtentOk;
    if es != [] {
      var n := |es| - 1;
      ExtentsReport(recs, es[..n], at, p);
      ExtentReports(recs, es[n], at, p);
      assert forall i :: 0 <= i < n ==> es[..n][i] == es[i];
      var before := Unsound(recs, es[..n]);
      assert n !in before && Unsound(recs, es) == if ExtentOk(recs, es[n]) then before else before + {n};
    }
  }

  ghost function Unsound(recs: seq<Bytes>, es: seq<FileExtent>): set<nat>
    requires PackIndex.Wide(recs)
  {
    set i: nat | i < |es| && !ExtentOk(recs, es[i])
  }

  lemma ContentReports(recs: seq<Bytes>, content: Reader, n: Node, at: Where, p: Problem)
    requires PackIndex.Wide(recs)
    ensures p in ContentFindings(recs, content, n, at) <==> p.at == at && ContentFault(recs, content, n, p.kind)
  {
    hide ExtentFault, ExtentsFindings;
    if content.inline(n.inode) == Ok(None) && content.chunks(n.inode).Ok? && content.chunks(n.inode).value.Some? {
      ExtentsReport(recs, content.chunks(n.inode).value.value, at, p);
    }
  }

  lemma FileReports(vol: Volume, recs: seq<Bytes>, r: Reader, n: Node, at: Where, p: Problem)
    requires PackIndex.Wide(recs)
    ensures p in FileFindings(vol, recs, r, n, at) <==> p.at == at && FileFault(vol, recs, r, n, p.kind)
  {
    hide ContentFindings, ContentFault, ShardFor;
    var route := Route(vol, r, n);
    if route.Content? {
      ContentReports(recs, route.reader, n, at, p);
    }
  }

  lemma LocatorLength(ns: seq<NestedEntry>, d: Dirent, r: Reader)
    ensures TurnOf(r, ns, d).BadLocator? <==>
      r.stat(d.inode).Ok? && r.stat(d.inode).value.typ == TYPE_DIR
      && Locator(ns, d.name).Some? && |Locator(ns, d.name).value| != 32
  {
  }

  /** The looks an entry calls for report its faults. */
  lemma EntryReports(vol: Volume, recs: seq<Bytes>, s: Spot, k: nat, path: seq<Bytes>, p: Problem)
    requires PackIndex.Wide(recs) && vol.Opened(s.id).Some? && k < |Entries(vol.Opened(s.id).value, s.ino)|
    ensures var r := vol.Opened(s.id).value;
      var d := Entries(r, s.ino)[k];
      && (p.at == InTree(path + [d.name]) && EntryFault(r, Locators(r, s.ino), d, p.kind) <==>
            || p in Findings(vol, recs, Naming(s, k, path)) || p in Findings(vol, recs, Crossing(s, k, path))
            || (IsLink(r, s.ino, k) && p in Findings(vol, recs, Linking(s, k, path))))
  {
    hide Entries, Locators, TurnOf;
    var r := vol.Opened(s.id).value;
    LocatorLength(Locators(r, s.ino), Entries(r, s.ino)[k], r);
  }

  // ---------- Looks and findings ----------

  /** The findings are those of the looks taken. */
  ghost predicate Accounted(vol: Volume, recs: seq<Bytes>, t: Trail, problems: seq<Problem>)
    requires PackIndex.Wide(recs)
  {
    forall p :: p in problems <==> Reported(vol, recs, t, p)
  }

  ghost predicate Reported(vol: Volume, recs: seq<Bytes>, t: Trail, p: Problem)
    requires PackIndex.Wide(recs)
  {
    exists look :: look in t.told && p in Findings(vol, recs, look)
  }

  lemma TaleAccounts(vol: Volume, recs: seq<Bytes>, t: Trail, looks: seq<Look>)
    requires PackIndex.Wide(recs) && t.told == set look | look in looks
    ensures Accounted(vol, recs, t, Tale(vol, recs, looks))
  {
    hide Findings, Tale;
    forall p
      ensures p in Tale(vol, recs, looks) <==> Reported(vol, recs, t, p)
    {
      Told(vol, recs, looks, p);
      if look :| look in t.told && p in Findings(vol, recs, look) {
        var i :| 0 <= i < |looks| && looks[i] == look;
      }
    }
  }

  // ---------- Everything wrong is found ----------

  ghost predicate Reports(problems: seq<Problem>, kind: Kind, at: Where) {
    Problem(kind, at) in problems
  }

  ghost predicate ShardFound(vol: Volume, problems: seq<Problem>, k: nat)
    requires k < |vol.shards|
  {
    forall kind :: ShardFault(vol, k, kind) ==> Reports(problems, kind, InShard(vol.shards[k].first, vol.shards[k].last))
  }

  /** At a path that leads to the directory the catalog covers; the root's own is empty. */
  ghost predicate CatalogFound(vol: Volume, t: Trail, problems: seq<Problem>, id: Bytes) {
    id in t.starts && exists path :: CatalogFoundAt(vol, t, problems, id, path)
  }

  ghost predicate CatalogFoundAt(vol: Volume, t: Trail, problems: seq<Problem>, id: Bytes, path: seq<Bytes>)
    requires id in t.starts
  {
    && PathTo(vol, Spot(id, t.starts[id]), path) && (id == vol.root ==> path == [])
    && forall kind :: CatalogFault(vol, id, kind) ==> Reports(problems, kind, InTree(path))
  }

  /** Everything wrong with a directory, at the path it was entered by or at the entry's name below it. */
  ghost predicate DirFound(vol: Volume, t: Trail, problems: seq<Problem>, s: Spot) {
    && s in t.via && s in t.at && vol.Opened(s.id).Some? && PathTo(vol, s, t.at[s])
    && var r, path := vol.Opened(s.id).value, t.at[s];
    && (r.readdir(s.ino).Err? ==> Reports(problems, BadCatalog, InTree(path)))
    && (forall k: nat :: k < |Locators(r, s.ino)| && !HasDirent(Entries(r, s.ino), Locators(r, s.ino)[k]) ==>
          Reports(problems, Transition, InTree(path + [Locators(r, s.ino)[k].name])))
    && (forall k: nat, kind :: k < |Entries(r, s.ino)| && EntryFault(r, Locators(r, s.ino), Entries(r, s.ino)[k], kind) ==>
          Reports(problems, kind, InTree(path + [Entries(r, s.ino)[k].name])))
    && forall k: nat, x: Spot, to: seq<Bytes> :: SecondWay(vol, t, s, k, x, to) ==> Reports(problems, Cycle, InTree(to))
  }

  /** Everything wrong with a file, at a path of an entry that leads to it. */
  ghost predicate FileFound(vol: Volume, recs: seq<Bytes>, t: Trail, problems: seq<Problem>, f: Checked)
    requires PackIndex.Wide(recs)
  {
    exists s: Spot, k: nat, path :: FileAt(vol, t, s, k, f, path) && FileFoundAt(vol, recs, problems, f, path)
  }

  ghost predicate FileFoundAt(vol: Volume, recs: seq<Bytes>, problems: seq<Problem>, f: Checked, path: seq<Bytes>)
    requires PackIndex.Wide(recs)
  {
    vol.Opened(f.id).Some? && forall kind :: FileFault(vol, recs, vol.Opened(f.id).value, f.node, kind) ==>
      Reports(problems, kind, InTree(path))
  }

  ghost predicate EverythingFound(vol: Volume, recs: seq<Bytes>, t: Trail, checked: seq<Checked>, problems: seq<Problem>)
    requires PackIndex.Wide(recs)
  {
    && (forall k: nat :: k < |vol.shards| ==> ShardFound(vol, problems, k))
    && (NoRootNode(vol) ==> Reports(problems, DanglingDirent, InTree([])))
    && (forall id :: id in t.starts ==> CatalogFound(vol, t, problems, id))
    && (forall s :: s in t.finished ==> DirFound(vol, t, problems, s))
    && (forall f :: f in checked ==> FileFound(vol, recs, t, problems, f))
  }

  // ---------- Nothing else is ----------

  ghost predicate DirCause(vol: Volume, t: Trail, s: Spot, p: Problem) {
    && s in t.via && s in t.at && vol.Opened(s.id).Some? && PathTo(vol, s, t.at[s])
    && var r, path := vol.Opened(s.id).value, t.at[s];
    || (p == Problem(BadCatalog, InTree(path)) && r.readdir(s.ino).Err?)
    || (exists k: nat :: k < |Locators(r, s.ino)| && !HasDirent(Entries(r, s.ino), Locators(r, s.ino)[k])
                         && p == Problem(Transition, InTree(path + [Locators(r, s.ino)[k].name])))
    || (exists k: nat :: k < |Entries(r, s.ino)| && EntryFault(r, Locators(r, s.ino), Entries(r, s.ino)[k], p.kind)
                         && p.at == InTree(path + [Entries(r, s.ino)[k].name]))
    || exists k: nat, x: Spot, to: seq<Bytes> :: SecondWay(vol, t, s, k, x, to) && p == Problem(Cycle, InTree(to))
  }

  ghost predicate FileCause(vol: Volume, recs: seq<Bytes>, t: Trail, f: Checked, p: Problem)
    requires PackIndex.Wide(recs)
  {
    && vol.Opened(f.id).Some? && FileFault(vol, recs, vol.Opened(f.id).value, f.node, p.kind)
    && exists s: Spot, k: nat, path :: FileAt(vol, t, s, k, f, path) && p.at == InTree(path)
  }

  ghost predicate CatalogCause(vol: Volume, t: Trail, id: Bytes, p: Problem) {
    && id in t.starts && CatalogFault(vol, id, p.kind)
    && exists path :: PathTo(vol, Spot(id, t.starts[id]), path) && p.at == InTree(path)
  }

  ghost predicate ShardCause(vol: Volume, k: nat, p: Problem)
    requires k < |vol.shards|
  {
    p.at == InShard(vol.shards[k].first, vol.shards[k].last) && ShardFault(vol, k, p.kind)
  }

  /** Something met has the fault the finding says, at the place it says. */
  ghost predicate Caused(vol: Volume, recs: seq<Bytes>, t: Trail, checked: seq<Checked>, p: Problem)
    requires PackIndex.Wide(recs)
  {
    || (exists k: nat :: k < |vol.shards| && ShardCause(vol, k, p))
    || (NoRootNode(vol) && p == Problem(DanglingDirent, InTree([])))
    || (exists id :: CatalogCause(vol, t, id, p))
    || (exists s :: DirCause(vol, t, s, p))
    || exists f :: f in checked && FileCause(vol, recs, t, f, p)
  }

  // ---------- Proofs ----------

  lemma LookReports(vol: Volume, recs: seq<Bytes>, t: Trail, problems: seq<Problem>, look: Look, p: Problem)
    requires PackIndex.Wide(recs) && Accounted(vol, recs, t, problems) && look in t.told
    requires p in Findings(vol, recs, look)
    ensures Reports(problems, p.kind, p.at)
  {
    hide Findings;
    assert Reported(vol, recs, t, p);
  }

  lemma ShardIsFound(vol: Volume, recs: seq<Bytes>, t: Trail, problems: seq<Problem>, k: nat)
    requires PackIndex.Wide(recs) && Accounted(vol, recs, t, problems) && Opening in t.told && k < |vol.shards|
    ensures ShardFound(vol, problems, k)
  {
    hide ShardFault, ShardFindings, Accounted, ObjectFindings, ShardsFindings;
    forall kind | ShardFault(vol, k, kind)
      ensures Reports(problems, kind, InShard(vol.shards[k].first, vol.shards[k].last))
    {
      var p := Problem(kind, InShard(vol.shards[k].first, vol.shards[k].last));
      ShardReports(vol, k, p);
      ShardsReport(vol, |vol.shards|, p);
      LookReports(vol, recs, t, problems, Opening, p);
    }
  }

  lemma CatalogIsFound(vol: Volume, recs: seq<Bytes>, t: Trail, checked: seq<Checked>, problems: seq<Problem>, id: Bytes)
    requires PackIndex.Wide(recs) && Accounted(vol, recs, t, problems) && Heard(vol, t, checked) && id in t.starts
    requires AllLooked(t, vol) && (id == vol.root ==> t.starts[id] == ROOT_INODE)
    ensures CatalogFound(vol, t, problems, id)
  {
    hide Accounted, ObjectFindings, ShardsFindings, PathTo, ObjectFault;
    var path :| CatalogLooked(t, vol, id, path);
    RootPath(vol);
    if id != vol.root {
      assert About(vol, t, checked, Fetching(id, path));
    }
    forall kind | CatalogFault(vol, id, kind)
      ensures Reports(problems, kind, InTree(path))
    {
      var p := Problem(kind, InTree(path));
      ObjectReports(vol, id, InTree(path), MissingCatalog, BadCatalog, p);
      if ObjectFault(vol, id, kind, MissingCatalog, BadCatalog) {
        LookReports(vol, recs, t, problems, if id == vol.root then Opening else Fetching(id, path), p);
      } else {
        LookReports(vol, recs, t, problems, Ordering(id, path), p);
      }
    }
    assert CatalogFoundAt(vol, t, problems, id, path);
  }

  lemma FileIsFound(vol: Volume, recs: seq<Bytes>, t: Trail, checked: seq<Checked>, problems: seq<Problem>, f: Checked,
                    path: seq<Bytes>)
    requires PackIndex.Wide(recs) && Accounted(vol, recs, t, problems) && Heard(vol, t, checked)
    requires Reading(f, path) in t.told
    ensures FileFound(vol, recs, t, problems, f)
  {
    hide Accounted, FileFindings, FileFault, PathTo;
    assert About(vol, t, checked, Reading(f, path));
    var s: Spot, k: nat :| FileAt(vol, t, s, k, f, path);
    forall kind | FileFault(vol, recs, vol.Opened(f.id).value, f.node, kind)
      ensures Reports(problems, kind, InTree(path))
    {
      FileReports(vol, recs, vol.Opened(f.id).value, f.node, InTree(path), Problem(kind, InTree(path)));
      LookReports(vol, recs, t, problems, Reading(f, path), Problem(kind, InTree(path)));
    }
    assert FileFoundAt(vol, recs, problems, f, path);
  }

  lemma DirIsFound(vol: Volume, recs: seq<Bytes>, t: Trail, checked: seq<Checked>, problems: seq<Problem>, s: Spot)
    requires PackIndex.Wide(recs) && Accounted(vol, recs, t, problems) && Heard(vol, t, checked) && SpotDone(t, vol, s)
    ensures DirFound(vol, t, problems, s)
  {
    hide Accounted, EntryFault, PathTo, Entries, Locators, EntryDone, HasDirent, SecondWay, About;
    var r, path := vol.Opened(s.id).value, t.at[s];
    if r.readdir(s.ino).Err? {
      LookReports(vol, recs, t, problems, Listing(s, path), Problem(BadCatalog, InTree(path)));
    }
    forall k: nat | k < |Locators(r, s.ino)| && !HasDirent(Entries(r, s.ino), Locators(r, s.ino)[k])
      ensures Reports(problems, Transition, InTree(path + [Locators(r, s.ino)[k].name]))
    {
      LookReports(vol, recs, t, problems, Locating(s, k, path),
                  Problem(Transition, InTree(path + [Locators(r, s.ino)[k].name])));
    }
    forall k: nat, kind | k < |Entries(r, s.ino)| && EntryFault(r, Locators(r, s.ino), Entries(r, s.ino)[k], kind)
      ensures Reports(problems, kind, InTree(path + [Entries(r, s.ino)[k].name]))
    {
      assert EntryDone(t, r, s, k);
      EntryIsFound(vol, recs, t, problems, s, k, kind);
    }
    forall k: nat, x: Spot, to: seq<Bytes> | SecondWay(vol, t, s, k, x, to)
      ensures Reports(problems, Cycle, InTree(to))
    {
      SecondWayIsFound(vol, recs, t, problems, s, k, x, to);
    }
  }

  lemma EntryIsFound(vol: Volume, recs: seq<Bytes>, t: Trail, problems: seq<Problem>, s: Spot, k: nat, kind: Kind)
    requires PackIndex.Wide(recs) && Accounted(vol, recs, t, problems) && vol.Opened(s.id).Some? && s in t.via
    requires s in t.at
    requires k < |Entries(vol.Opened(s.id).value, s.ino)| && EntryDone(t, vol.Opened(s.id).value, s, k)
    requires var r := vol.Opened(s.id).value; EntryFault(r, Locators(r, s.ino), Entries(r, s.ino)[k], kind)
    ensures Reports(problems, kind, InTree(t.at[s] + [Entries(vol.Opened(s.id).value, s.ino)[k].name]))
  {
    hide Accounted, EntryFault, Entries, Locators, TurnOf, NodeFindings;
    var path := t.at[s];
    var p := Problem(kind, InTree(path + [Entries(vol.Opened(s.id).value, s.ino)[k].name]));
    EntryReports(vol, recs, s, k, path, p);
    if p in Findings(vol, recs, Naming(s, k, path)) {
      LookReports(vol, recs, t, problems, Naming(s, k, path), p);
    } else if p in Findings(vol, recs, Crossing(s, k, path)) {
      LookReports(vol, recs, t, problems, Crossing(s, k, path), p);
    } else {
      LookReports(vol, recs, t, problems, Linking(s, k, path), p);
    }
  }

  lemma SecondWayIsFound(vol: Volume, recs: seq<Bytes>, t: Trail, problems: seq<Problem>, s: Spot, k: nat, x: Spot,
                         to: seq<Bytes>)
    requires PackIndex.Wide(recs) && Accounted(vol, recs, t, problems) && SpotDone(t, vol, s)
    requires SecondWay(vol, t, s, k, x, to)
    ensures Reports(problems, Cycle, InTree(to))
  {
    hide Accounted, Entries, Locators, TurnOf;
    assert EntryDone(t, vol.Opened(s.id).value, s, k);
    LookReports(vol, recs, t, problems, Returning(x, to), Problem(Cycle, InTree(to)));
  }

  /** Of a check that completes, whatever it has met and is wrong is reported where it is and for what it is. */
  lemma FaultsAreFound(vol: Volume, recs: seq<Bytes>, t: Trail, checked: seq<Checked>, problems: seq<Problem>)
    requires PackIndex.Wide(recs) && Accounted(vol, recs, t, problems) && Heard(vol, t, checked)
    requires Settled(t, vol) && AllLooked(t, vol) && vol.root in t.starts && t.starts[vol.root] == ROOT_INODE
    requires forall f :: f in checked ==> exists path :: Reading(f, path) in t.told
    ensures EverythingFound(vol, recs, t, checked, problems)
  {
    hide Accounted, Heard, SpotDone, AllLooked, ShardFound, CatalogFound, DirFound, FileFound, Findings;
    RootLooked(t, vol);
    forall k: nat | k < |vol.shards|
      ensures ShardFound(vol, problems, k)
    {
      ShardIsFound(vol, recs, t, problems, k);
    }
    if NoRootNode(vol) {
      RootIsFound(vol, recs, t, problems);
    }
    forall id | id in t.starts
      ensures CatalogFound(vol, t, problems, id)
    {
      CatalogIsFound(vol, recs, t, checked, problems, id);
    }
    forall s | s in t.finished
      ensures DirFound(vol, t, problems, s)
    {
      DirIsFound(vol, recs, t, checked, problems, s);
    }
    forall f | f in checked
      ensures FileFound(vol, recs, t, problems, f)
    {
      var path :| Reading(f, path) in t.told;
      FileIsFound(vol, recs, t, checked, problems, f, path);
    }
  }

  lemma RootLooked(t: Trail, vol: Volume)
    requires AllLooked(t, vol) && vol.root in t.starts
    ensures Opening in t.told && RootNode in t.told
  {
    var path :| CatalogLooked(t, vol, vol.root, path);
  }

  lemma RootIsFound(vol: Volume, recs: seq<Bytes>, t: Trail, problems: seq<Problem>)
    requires PackIndex.Wide(recs) && Accounted(vol, recs, t, problems) && RootNode in t.told && NoRootNode(vol)
    ensures Reports(problems, DanglingDirent, InTree([]))
  {
    hide Accounted;
    LookReports(vol, recs, t, problems, RootNode, Problem(DanglingDirent, InTree([])));
  }

  /** And whatever is reported, complete or not, is wrong with something met. */
  lemma FindingsHaveCauses(vol: Volume, recs: seq<Bytes>, t: Trail, checked: seq<Checked>, problems: seq<Problem>,
                           p: Problem)
    requires PackIndex.Wide(recs) && Accounted(vol, recs, t, problems) && Heard(vol, t, checked) && p in problems
    requires vol.root in t.starts && t.starts[vol.root] == ROOT_INODE
    ensures Caused(vol, recs, t, checked, p)
  {
    hide Findings, About, PathTo, Caused;
    assert Reported(vol, recs, t, p);
    var look :| look in t.told && p in Findings(vol, recs, look);
    LookCaused(vol, recs, t, checked, look, p);
  }

  lemma LookCaused(vol: Volume, recs: seq<Bytes>, t: Trail, checked: seq<Checked>, look: Look, p: Problem)
    requires PackIndex.Wide(recs) && Heard(vol, t, checked) && look in t.told && p in Findings(vol, recs, look)
    requires vol.root in t.starts && t.starts[vol.root] == ROOT_INODE
    ensures Caused(vol, recs, t, checked, p)
  {
    hide ObjectFindings, ShardsFindings, FileFindings, PathTo, ShardCause, CatalogCause, DirCause, FileCause, LooksWithin,
         EntryFindings, SecondWay, FileAt;
    assert About(vol, t, checked, look);
    if look.Opening? {
      OpeningCaused(vol, t, p);
    } else if look.Fetching? || look.Ordering? {
      CatalogCaused(vol, t, look.id, look.path, p);
    } else if look.Reading? {
      FileCaused(vol, recs, t, look.f, look.path, p);
    } else if look.Returning? {
      var s: Spot, k: nat :| SecondWay(vol, t, s, k, look.s, look.path);
      ReturnCaused(vol, t, checked, s, k, look.s, look.path, p);
    } else if !look.RootNode? {
      DirCaused(vol, recs, t, look, p);
    }
  }

  lemma OpeningCaused(vol: Volume, t: Trail, p: Problem)
    requires vol.root in t.starts && t.starts[vol.root] == ROOT_INODE
    requires || p in ObjectFindings(vol, vol.root, InTree([]), MissingCatalog, BadCatalog)
             || p in ShardsFindings(vol, |vol.shards|)
    ensures CatalogCause(vol, t, vol.root, p) || exists k: nat :: k < |vol.shards| && ShardCause(vol, k, p)
  {
    hide ObjectFindings, ShardsFindings, ShardFindings, ShardFault, ObjectFault, PathTo;
    ObjectReports(vol, vol.root, InTree([]), MissingCatalog, BadCatalog, p);
    ShardsReport(vol, |vol.shards|, p);
    RootPath(vol);
    if k: nat :| k < |vol.shards| && p in ShardFindings(vol, k) {
      ShardReports(vol, k, p);
      assert ShardCause(vol, k, p);
    }
  }

  lemma CatalogCaused(vol: Volume, t: Trail, id: Bytes, path: seq<Bytes>, p: Problem)
    requires id in t.starts && PathTo(vol, Spot(id, t.starts[id]), path)
    requires || p in ObjectFindings(vol, id, InTree(path), MissingCatalog, BadCatalog)
             || (p == Problem(BadCatalog, InTree(path)) && vol.Opened(id).Some? && !vol.Opened(id).value.ordered)
    ensures CatalogCause(vol, t, id, p)
  {
    hide ObjectFindings, ObjectFault, PathTo;
    ObjectReports(vol, id, InTree(path), MissingCatalog, BadCatalog, p);
  }

  lemma FileCaused(vol: Volume, recs: seq<Bytes>, t: Trail, f: Checked, path: seq<Bytes>, p: Problem)
    requires PackIndex.Wide(recs) && p in Findings(vol, recs, Reading(f, path))
    requires exists s: Spot, k: nat :: FileAt(vol, t, s, k, f, path)
    ensures FileCause(vol, recs, t, f, p)
  {
    hide FileFindings, FileFault, FileAt;
    FileReports(vol, recs, vol.Opened(f.id).value, f.node, InTree(path), p);
  }

  lemma ReturnCaused(vol: Volume, t: Trail, checked: seq<Checked>, s: Spot, k: nat, x: Spot, path: seq<Bytes>,
                     p: Problem)
    requires SecondWay(vol, t, s, k, x, path) && p == Problem(Cycle, InTree(path)) && Heard(vol, t, checked)
    ensures DirCause(vol, t, s, p)
  {
    hide PathTo, About, Entries, Locators, TurnOf;
  }

  lemma DirCaused(vol: Volume, recs: seq<Bytes>, t: Trail, look: Look, p: Problem)
    requires PackIndex.Wide(recs) && (look.Listing? || look.Locating? || look.Naming? || look.Crossing? || look.Linking?)
    requires look.s in t.via && look.s in t.at && t.at[look.s] == look.path && PathTo(vol, look.s, look.path)
    requires LooksWithin(vol, look) && p in Findings(vol, recs, look)
    ensures DirCause(vol, t, look.s, p)
  {
    hide PathTo, Entries, Locators, TurnOf, EntryFault, HasDirent, NodeFindings, SecondWay;
    if !look.Listing? && !look.Locating? {
      EntryReports(vol, recs, look.s, look.k, look.path, p);
    }
  }

  // ---------- What is unsound is reported ----------

  lemma {:induction false} FirstNamer(vol: Volume, k: nat) returns (j: nat)
    requires k < |vol.shards|
    ensures j <= k && vol.shards[j].identity == vol.shards[k].identity && FirstNaming(vol, j)
  {
    if FirstNaming(vol, k) {
      j := k;
    } else {
      var i :| 0 <= i < k && vol.shards[i].identity == vol.shards[k].identity;
      j := FirstNamer(vol, i);
    }
  }

  /** The file has a finding of its own, or the shard it routes to cannot be opened and has one. */
  ghost predicate FileReported(vol: Volume, recs: seq<Bytes>, t: Trail, problems: seq<Problem>, f: Checked)
    requires PackIndex.Wide(recs) && vol.Opened(f.id).Some?
  {
    || (exists s: Spot, k: nat, path, kind :: FileAt(vol, t, s, k, f, path) && Reports(problems, kind, InTree(path))
                                              && FileFault(vol, recs, vol.Opened(f.id).value, f.node, kind))
    || (exists k: nat :: k < |vol.shards| && ShardFor(vol.shards, ToU64(f.node.inode)).Some?
                         && vol.shards[k].identity == ShardFor(vol.shards, ToU64(f.node.inode)).value.identity
                         && UnopenedReported(vol, problems, k))
  }

  ghost predicate UnopenedReported(vol: Volume, problems: seq<Problem>, k: nat)
    requires k < |vol.shards|
  {
    var at := InShard(vol.shards[k].first, vol.shards[k].last);
    if vol.shards[k].identity in vol.objects then Reports(problems, BadShard, at) else Reports(problems, MissingShard, at)
  }

  /** Every file checked that is not sound has a finding, whatever else was reported. */
  lemma UnsoundFileReported(vol: Volume, recs: seq<Bytes>, t: Trail, checked: seq<Checked>, problems: seq<Problem>,
                            f: Checked)
    requires PackIndex.Wide(recs) && EverythingFound(vol, recs, t, checked, problems) && f in checked
    requires vol.Opened(f.id).Some? && !FileOk(vol, recs, vol.Opened(f.id).value, f.node)
    ensures FileReported(vol, recs, t, problems, f)
  {
    hide ShardFound, CatalogFound, DirFound, FileFindings, FileFault, FileOk, ShardFor;
    var r := vol.Opened(f.id).value;
    assert FileFound(vol, recs, t, problems, f);
    var s: Spot, k: nat, path :| FileAt(vol, t, s, k, f, path) && FileFoundAt(vol, recs, problems, f, path);
    FileSilent(vol, recs, r, f.node, InTree(path));
    if Route(vol, r, f.node).ShardUnusable? {
      UnusableReported(vol, recs, t, checked, problems, f);
    } else {
      var p := FileFindings(vol, recs, r, f.node, InTree(path))[0];
      FileReports(vol, recs, r, f.node, InTree(path), p);
      assert Reports(problems, p.kind, InTree(path));
    }
  }

  lemma UnusableReported(vol: Volume, recs: seq<Bytes>, t: Trail, checked: seq<Checked>, problems: seq<Problem>,
                         f: Checked)
    requires PackIndex.Wide(recs) && EverythingFound(vol, recs, t, checked, problems)
    requires vol.Opened(f.id).Some? && Route(vol, vol.Opened(f.id).value, f.node).ShardUnusable?
    ensures FileReported(vol, recs, t, problems, f)
  {
    hide CatalogFound, DirFound, FileFound;
    var sh := ShardFor(vol.shards, ToU64(f.node.inode)).value;
    var i :| 0 <= i < |vol.shards| && vol.shards[i] == sh;
    var k := FirstNamer(vol, i);
    assert ShardFound(vol, problems, k);
    var kind := if sh.identity in vol.objects then BadShard else MissingShard;
    assert ShardFault(vol, k, kind);
    assert UnopenedReported(vol, problems, k);
  }

  /** Every directory entered that is not sound has a finding at its path or at a name below it. */
  lemma UnsoundDirReported(vol: Volume, recs: seq<Bytes>, t: Trail, checked: seq<Checked>, problems: seq<Problem>,
                           s: Spot)
    requires PackIndex.Wide(recs) && EverythingFound(vol, recs, t, checked, problems) && s in t.finished
    requires BadDir(vol, s)
    ensures s in t.at && exists kind, name :: |name| <= 1 && Reports(problems, kind, InTree(t.at[s] + name))
  {
    hide ShardFound, CatalogFound, FileFound, EntryFault, SecondWay, Entries, Locators, HasDirent, EntryOk;
    assert DirFound(vol, t, problems, s);
    var r, path := vol.Opened(s.id).value, t.at[s];
    if r.readdir(s.ino).Err? {
      assert path + [] == path;
    } else if k :| 0 <= k < |Locators(r, s.ino)| && !HasDirent(Entries(r, s.ino), Locators(r, s.ino)[k]) {
      assert Reports(problems, Transition, InTree(path + [Locators(r, s.ino)[k].name]));
    } else {
      var k :| 0 <= k < |Entries(r, s.ino)| && !EntryOk(r, Locators(r, s.ino), Entries(r, s.ino)[k]);
      var kind := EntryAtFault(r, Locators(r, s.ino), Entries(r, s.ino)[k]);
      assert Reports(problems, kind, InTree(path + [Entries(r, s.ino)[k].name]));
    }
  }

  lemma EntryAtFault(r: Reader, ns: seq<NestedEntry>, d: Dirent) returns (kind: Kind)
    requires !EntryOk(r, ns, d)
    ensures EntryFault(r, ns, d, kind)
  {
    LocatorLength(ns, d, r);
    kind := match r.stat(d.inode)
      case Err(e) => if e == NotExist then DanglingDirent else BadCatalog
      case Ok(n) => if n.typ != d.typ then TypeMismatch else if n.typ == TYPE_SYMLINK then ContentRows else Transition;
  }

  /** Every catalog queued that does not open, is dishonest or out of order has a finding at a path to it. */
  lemma BadCatalogReported(vol: Volume, recs: seq<Bytes>, t: Trail, checked: seq<Checked>, problems: seq<Problem>,
                           id: Bytes)
    requires PackIndex.Wide(recs) && EverythingFound(vol, recs, t, checked, problems) && id in t.starts
    requires BadCatalogObject(vol, id)
    ensures exists path, kind :: PathTo(vol, Spot(id, t.starts[id]), path) && CatalogFault(vol, id, kind)
                                 && Reports(problems, kind, InTree(path))
  {
    hide ShardFound, DirFound, FileFound, PathTo;
    assert CatalogFound(vol, t, problems, id);
    var path :| CatalogFoundAt(vol, t, problems, id, path);
    var kind := if id !in vol.objects then MissingCatalog
      else if vol.objects[id].Unusable? || !vol.objects[id].reader.ordered then BadCatalog else WrongIdentity;
    assert CatalogFault(vol, id, kind);
    assert Reports(problems, kind, InTree(path));
  }
}
