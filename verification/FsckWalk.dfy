/** fsck's descent: a queue of catalogs, and within each a recursive walk that no cycle can trap. */
module FsckWalk {
  import opened Bytes
  import opened LittleEndian
  import opened CatalogRecords
  import opened StaticQueries
  import opened FsckVolume
  import opened FsckReport
  import opened FsckTrail
  import opened FsckTally
  import opened FsckOrder
  import opened FsckSteps
  import opened FsckQueue
  import opened FsckContent
  import opened FsckFaults

  class Walker {
    const c: Contents
    var catalogs: nat
    var files: nat
    var dirs: nat
    var symlinks: nat
    var bytes: int
    var seenInode: set<i64>
    var visited: set<Bytes>
    var queue: seq<Job>
    var walked: set<i64>
    ghost var via: map<Spot, seq<nat>>
    ghost var at: map<Spot, seq<Bytes>>
    ghost var finished: set<Spot>
    ghost var starts: map<Bytes, i64>
    ghost var calls: nat
    ghost var begun: seq<Bytes>
    ghost var dirInodes: set<i64>
    ghost var linkInodes: set<i64>
    ghost var specials: set<i64>
    ghost var fileInodes: set<i64>
    ghost var checked: seq<Checked>
    /** Everything looked at, in order. */
    ghost var trace: seq<Look>

    constructor (c: Contents)
      requires c.Valid() && c.Cached() && c.named == {} && c.inlineFiles == 0
      requires c.problems == Findings(c.vol, c.Recs(), Opening)
      ensures this.c == c && Ready()
    {
      hide Findings;
      this.c := c;
      catalogs, files, dirs, symlinks, bytes := 0, 0, 0, 0, 0;
      seenInode, visited, queue, walked := {}, {}, [], {};
      via, at, finished, starts, calls, begun, trace := map[], map[], {}, map[], 0, [], [Opening];
      dirInodes, linkInodes, specials, fileInodes, checked := {}, {}, {}, {}, [];
      new;
      OneMoreLook(c.vol, c.Recs(), [], Opening);
      assert [] + [Opening] == trace;
    }

    /** A walker that has not set off; only the root object and the shards have been looked at. */
    ghost predicate Ready()
      reads this, c, c.index, c.index.table
    {
      && c.Valid() && c.Cached() && c.named == {} && c.inlineFiles == 0 && catalogs == files == dirs == symlinks == bytes == 0
      && seenInode == {} && visited == {} && queue == [] && walked == {}
      && via == map[] && at == map[] && finished == {} && starts == map[] && calls == 0 && begun == []
      && dirInodes == linkInodes == specials == fileInodes == {} && checked == [] && trace == [Opening] && Told()
    }

    ghost function Now(): Trail
      reads `via, `at, `finished, `starts, `seenInode, `trace
    {
      Trail(via, at, finished, starts, seenInode, Returns(trace), set look | look in trace)
    }

    ghost function Counts(): Tally
      reads `files, `dirs, `symlinks, `bytes, `seenInode, `dirInodes, `linkInodes, `specials, `fileInodes, `checked
    {
      Tally(dirs, files, symlinks, bytes, seenInode, dirInodes, linkInodes, fileInodes, specials, checked)
    }

    ghost predicate Tallied()
      reads `files, `dirs, `symlinks, `bytes, `seenInode, `dirInodes, `linkInodes, `specials, `fileInodes, `checked
    {
      TallyOk(Counts())
    }

    /** Every file counted was checked where it was first reached, and its chunks are the ones counted. */
    ghost predicate FilesChecked()
      reads `checked, c`named, c`inlineFiles, c.index, c.index.table
    {
      c.index.Valid() && AllChecked(c.vol, c.Recs(), checked, c.named, c.inlineFiles)
    }

    /** The queue holds each catalog once, by a path that leads to it, and nothing the volume does not lead to. */
    ghost predicate Queued()
      reads `visited, `queue, `starts, `via
    {
      QueueOk(c.vol, visited, queue, starts) && StartsLanded(c.vol, via.Keys, starts) && JobsPlaced(c.vol, queue)
    }

    /** What was counted was met in some directory entered. */
    ghost predicate Met()
      reads `via, `files, `dirs, `symlinks, `bytes, `seenInode, `dirInodes, `linkInodes, `specials, `fileInodes, `checked
    {
      AllMet(c.vol, via.Keys, Counts())
    }

    /** Whatever was looked at had been met. */
    ghost predicate Heeded()
      reads `via, `at, `finished, `starts, `seenInode, `checked, `trace
    {
      Heard(c.vol, Now(), checked)
    }

    /** The findings are those of the looks, in order, and every file checked has been looked at. */
    ghost predicate Told()
      reads `trace, `checked, c`problems, c.index, c.index.table
    {
      c.index.Valid() && c.problems == Tale(c.vol, c.Recs(), trace) && AllRead(checked, trace)
    }

    /** The findings of one more look have been reported, and it has yet to be noted. */
    ghost predicate Telling(look: Look)
      reads `trace, `checked, c`problems, c.index, c.index.table
    {
      && c.index.Valid() && c.problems == Tale(c.vol, c.Recs(), trace) + Findings(c.vol, c.Recs(), look)
      && (AllRead(checked, trace) || AllRead(checked, trace + [look]))
    }

    /** Everything but the findings is in order. */
    ghost predicate Steady()
      reads `files, `dirs, `symlinks, `bytes, `seenInode, `visited, `queue, `via, `at, `finished, `starts, `calls, `dirInodes,
            `linkInodes, `specials, `fileInodes, `checked, `trace,
            c`shards, c`chunks, c`seen, c`named, c`inlineFiles, c.index, c.index.table
    {
      && c.Valid() && c.Cached() && Tallied() && FilesChecked() && Queued() && Met() && Heeded()
      && Settled(Now(), c.vol) && Anchored(Now(), c.vol) && calls == |via| + Returns(trace)
    }

    ghost predicate Valid()
      reads this, c, c.index, c.index.table
    {
      Steady() && Told()
    }

    ghost predicate InOrder()
      reads `via, `begun, `checked
    {
      OrderOk(c.vol, via.Keys, begun, checked)
    }

    /** This catalog is the one being walked. */
    ghost predicate Walking(id: Bytes)
      reads `via, `finished, `begun, `checked
    {
      InOrder() && Current(via.Keys, finished, begun, id)
    }

    /** walked is what has been entered of this catalog. */
    ghost predicate WalkedOf(id: Bytes)
      reads `walked, `via
    {
      forall ino: i64 :: ino in walked <==> Spot(id, ino) in via
    }

    /** Notes one more look, whose findings have been reported. */
    ghost method Record(look: Look)
      requires Steady() && Telling(look) && About(c.vol, Now(), checked, look) && !look.Returning?
      modifies `trace
      ensures Valid() && Quiet(old(Now()), Now()) && Now() == old(Now()).(told := old(Now().told) + {look})
    {
      hide Tallied, Met, Queued, FilesChecked, Settled, Anchored, Contents.Valid, Contents.Cached, Heard, About,
           Findings, Tale, Quiet, AllRead, Returns;
      ghost var t := Now();
      if AllRead(checked, trace) {
        StillRead(checked, trace, look);
      }
      OneMoreLook(c.vol, c.Recs(), trace, look);
      OneMoreReturn(trace, look);
      LookAccounts(c.vol, t, checked, look);
      trace := trace + [look];
      assert Now() == t.(told := t.told + {look});
    }

    // ---------- Counting ----------

    method CountDir(ino: i64)
      requires Valid() && MetAs(c.vol, via.Keys, ino, 2)
      modifies `seenInode, `dirs, `dirInodes
      ensures Valid() && Quiet(old(Now()), Now()) && ino in seenInode
    {
      hide TallyOk, AllMet, Queued, Settled, Anchored, FilesChecked, Contents.Valid, Contents.Cached, Quiet,
           MetAs, Heard, Walker.Told;
      ghost var t, counts := Now(), Counts();
      if ino in seenInode {
        QuietItself(t);
        return;
      }
      SeenKeeps(t, c.vol, ino);
      OneMoreDir(Counts(), ino);
      seenInode := seenInode + {ino};
      dirInodes := dirInodes + {ino};
      dirs := dirs + 1;
      OneMoreMet(c.vol, via.Keys, counts, Counts(), ino);
      SeenHeard(c.vol, t, checked, ino);
    }

    method CountSymlink(ino: i64)
      requires Valid() && MetAs(c.vol, via.Keys, ino, 3)
      modifies `seenInode, `symlinks, `linkInodes
      ensures Valid() && Quiet(old(Now()), Now()) && ino in seenInode
    {
      hide TallyOk, AllMet, Queued, Settled, Anchored, FilesChecked, Contents.Valid, Contents.Cached, Quiet,
           MetAs, Heard, Walker.Told;
      ghost var t, counts := Now(), Counts();
      if ino in seenInode {
        QuietItself(t);
        return;
      }
      SeenKeeps(t, c.vol, ino);
      OneMoreSymlink(Counts(), ino);
      seenInode := seenInode + {ino};
      linkInodes := linkInodes + {ino};
      symlinks := symlinks + 1;
      OneMoreMet(c.vol, via.Keys, counts, Counts(), ino);
      SeenHeard(c.vol, t, checked, ino);
    }

    method MarkSpecial(ino: i64)
      requires Valid() && MetAsSpecial(c.vol, via.Keys, ino)
      modifies `seenInode, `specials
      ensures Valid() && Quiet(old(Now()), Now()) && ino in seenInode
    {
      hide TallyOk, AllMet, Queued, Settled, Anchored, FilesChecked, Contents.Valid, Contents.Cached, Quiet,
           MetAsSpecial, Heard, Walker.Told;
      ghost var t, counts := Now(), Counts();
      if ino in seenInode {
        QuietItself(t);
        return;
      }
      SeenKeeps(t, c.vol, ino);
      OneMoreSpecial(Counts(), ino);
      seenInode := seenInode + {ino};
      specials := specials + {ino};
      OneMoreMet(c.vol, via.Keys, counts, Counts(), ino);
      SeenHeard(c.vol, t, checked, ino);
    }

    method Admit(ino: i64, n: Node, ghost f: Checked)
      requires Tallied() && f.ino == ino && ino !in seenInode && f.node == n
      modifies `seenInode, `files, `bytes, `fileInodes, `checked
      ensures Tallied() && seenInode == old(seenInode) + {f.ino} && checked == old(checked) + [f]
    {
      hide TallyOk;
      OneMoreChecked(Counts(), f);
      files := files + 1;
      bytes := bytes + n.length;
      fileInodes := fileInodes + {ino};
      checked := checked + [f];
      seenInode := seenInode + {ino};
    }

    /** A file is counted and checked where it is first reached; another link to it is not. */
    method VisitFile(cat: Reader, id: Bytes, ino: i64, n: Node, path: seq<Bytes>, ghost s: Spot, ghost k: nat)
      requires Valid() && c.vol.Opened(id) == Some(cat) && cat.stat(ino) == Ok(n)
      requires MetAsFile(c.vol, via.Keys, Checked(id, ino, n)) && Walking(id)
      requires FileAt(c.vol, Now(), s, k, Checked(id, ino, n), path)
      modifies `seenInode, `files, `bytes, `fileInodes, `checked, `trace,
               c`problems, c`chunks, c`seen, c`named, c`inlineFiles, c`shards
      ensures Valid() && Quiet(old(Now()), Now()) && ino in seenInode && Walking(id)
      ensures old(ino in seenInode) ==> checked == old(checked)
      ensures old(ino !in seenInode) ==> checked == old(checked) + [Checked(id, ino, n)]
    {
      hide Tallied, Met, Queued, Settled, Anchored, Contents.Valid, Contents.Cached, AllChecked, FileFindings, FileIds,
           FileInline, Quiet, Heeded, MetAsFile, InOrder, Tale, FileAt, AllRead, Returns, Current, About;
      ghost var t := Now();
      if ino in seenInode {
        QuietItself(t);
        return;
      }
      ghost var f, before, named, inline := Checked(id, ino, n), checked, c.named, c.inlineFiles;
      AdmitFile(id, ino, n, path, s, k);
      c.CheckFile(cat, n, path);
      FileJoins(c.vol, c.Recs(), before, named, c.named, inline, c.inlineFiles, f);
      OneMoreRead(before, trace, f, path);
      ghost var admitted := Now();
      Record(Reading(f, path));
      QuietTransitive(t, admitted, Now());
    }

    /** Counts a file, and notes what is known of it before it is read. */
    method AdmitFile(id: Bytes, ino: i64, n: Node, path: seq<Bytes>, ghost s: Spot, ghost k: nat)
      requires Valid() && Walking(id) && ino !in seenInode && MetAsFile(c.vol, via.Keys, Checked(id, ino, n))
      requires FileAt(c.vol, Now(), s, k, Checked(id, ino, n), path)
      modifies `seenInode, `files, `bytes, `fileInodes, `checked
      ensures Tallied() && Met() && Heeded() && Settled(Now(), c.vol) && Anchored(Now(), c.vol) && Walking(id)
      ensures checked == old(checked) + [Checked(id, ino, n)] && ino in seenInode && Quiet(old(Now()), Now())
      ensures About(c.vol, Now(), checked, Reading(Checked(id, ino, n), path))
    {
      hide TallyOk, AllMet, Queued, Settled, Anchored, Contents.Valid, Contents.Cached, FilesChecked, Quiet, Heard, MetAsFile,
           OrderOk, Walker.Told, FileAt, Returns, About;
      ghost var f, t, counts, before := Checked(id, ino, n), Now(), Counts(), checked;
      OneMoreInOrder(c.vol, t, begun, checked, f);
      SeenKeeps(t, c.vol, ino);
      FileHeard(c.vol, t, t.(seen := t.seen + {ino}), before, f, s, k, path);
      Admit(ino, n, f);
      OneMoreFileMet(c.vol, via.Keys, counts, Counts(), f);
    }

    // ---------- Directories ----------

    /** The walk of catalog j stands at directory ino, where these steps lead. */
    ghost predicate Standing(cat: Reader, j: Job, ino: i64, steps: seq<nat>)
      reads `walked, `via, `finished, `begun, `checked, `starts
    {
      && c.vol.Opened(j.id) == Some(cat) && j.id in starts && WalkedOf(j.id) && Walking(j.id)
      && Follow(cat, starts[j.id], steps) == Some(ino)
    }

    /** The directory has been entered by these steps and this path. */
    ghost predicate Within(s: Spot, steps: seq<nat>, path: seq<Bytes>)
      reads `via, `at
    {
      s in via && via[s] == steps && s in at && at[s] == path
    }

    /** The directory is where its catalog's descent begins, or an entry of an entered one leads to it. */
    ghost predicate LedTo(x: Spot, steps: seq<nat>, path: seq<Bytes>)
      reads `via, `at
    {
      PathTo(c.vol, x, path) && (steps == [] || exists s: Spot, k: nat :: LedBy(s, k, x, steps, path))
    }

    ghost predicate LedBy(s: Spot, k: nat, x: Spot, steps: seq<nat>, path: seq<Bytes>)
      reads `via, `at
    {
      s in via && steps == via[s] + [k] && WayTo(c.vol, via, at, s, k, x, path)
    }

    /**
      Checks one directory and everything below it in this catalog.  A directory already walked is
      a second way to the same place: it is reported, and gone into no deeper.
     */
    method WalkDir(cat: Reader, j: Job, ino: i64, path: seq<Bytes>, ghost steps: seq<nat>)
      requires Valid() && Standing(cat, j, ino, steps) && Untrodden(Now(), j.id, steps)
      requires LedTo(Spot(j.id, ino), steps, path)
      modifies this, c
      ensures Valid() && WalkedOf(j.id) && Walking(j.id)
      ensures Walked(old(Now()), Now(), Spot(j.id, ino), steps) && Came(Now(), Spot(j.id, ino), steps, path)
      ensures old(queue) <= queue && begun == old(begun) && catalogs == old(catalogs) && old(walked) <= walked
      decreases |Unwalked(walked)|, 0
    {
      hide Walker.Valid, Walked, Inside, EntriesDone, Follow, Walker.WalkedOf, Walker.Walking, Untrodden, Grew, LedBy,
           PathTo, LocatorsLooked;
      if ino in walked {
        Cycled(cat, j, ino, path, steps);
        return;
      }
      ghost var t := Now();
      FewerUnwalked(walked, walked + {ino});
      Enter(cat, j, ino, path, steps);
      CheckDir(cat, j, ino, path, t, steps);
      Finish(cat, j, ino, path, t, steps);
    }

    /** The checks of a directory just entered. */
    method CheckDir(cat: Reader, j: Job, ino: i64, path: seq<Bytes>, ghost t: Trail, ghost steps: seq<nat>)
      requires Valid() && Standing(cat, j, ino, steps) && Inside(t, Now(), Spot(j.id, ino), steps)
      requires forall l: nat :: Untrodden(Now(), j.id, steps + [l])
      requires Within(Spot(j.id, ino), steps, path)
      modifies this, c
      ensures Valid() && Standing(cat, j, ino, steps) && Inside(t, Now(), Spot(j.id, ino), steps)
      ensures Within(Spot(j.id, ino), steps, path) && Listing(Spot(j.id, ino), path) in Now().told
      ensures LocatorsLooked(Now(), Spot(j.id, ino), |Locators(cat, ino)|)
      ensures EntriesDone(Now(), cat, Spot(j.id, ino), |Entries(cat, ino)|)
      ensures old(queue) <= queue && begun == old(begun) && catalogs == old(catalogs) && old(walked) <= walked
      decreases |Unwalked(walked)|, 4
    {
      hide Walker.Valid, Inside, EntriesDone, Follow, Walker.WalkedOf, Walker.Walking, Untrodden, Grew, Quiet,
           HasDirent, LocatorsLooked;
      ghost var s, entered := Spot(j.id, ino), Now();
      List(cat, j, ino, path);
      ghost var listed := Now();
      match cat.readdir(ino)
      case Err(_) =>
        InsideQuiet(t, entered, listed, s, steps);
        QuietBelow(entered, listed, j.id, steps);
        NothingToVisit(listed, cat, s, steps, t);
      case Ok((ds, ns)) =>
        var nested := CheckLocators(cat, j, ino, ds, ns, path);
        QuietTransitive(entered, listed, Now());
        InsideQuiet(t, entered, Now(), s, steps);
        ghost var halved := Now();
        QuietBelow(entered, halved, j.id, steps);
        VisitEntries(cat, j, ino, path, ds, nested, t, steps);
        LookedAllStays(halved, Now(), s, |ns|);
        ToldStays(listed, halved, Now(), Listing(s, path));
    }

    /** A directory that cannot be listed is reported. */
    method List(cat: Reader, j: Job, ino: i64, path: seq<Bytes>)
      requires Valid() && c.vol.Opened(j.id) == Some(cat) && Spot(j.id, ino) in at && at[Spot(j.id, ino)] == path
      modifies c`problems, `trace
      ensures Valid() && Quiet(old(Now()), Now()) && Listing(Spot(j.id, ino), path) in Now().told
      ensures Now() == old(Now()).(told := old(Now().told) + {Listing(Spot(j.id, ino), path)})
    {
      hide Walker.Steady, Tale, Quiet;
      if cat.readdir(ino).Err? {
        c.Report(BadCatalog, InTree(path));
      }
      Record(Listing(Spot(j.id, ino), path));
    }

    method Cycled(cat: Reader, j: Job, ino: i64, path: seq<Bytes>, ghost steps: seq<nat>)
      requires Valid() && Standing(cat, j, ino, steps) && Untrodden(Now(), j.id, steps) && ino in walked
      requires LedTo(Spot(j.id, ino), steps, path)
      modifies c`problems, `calls, `trace
      ensures Valid() && WalkedOf(j.id) && Walking(j.id) && Walked(old(Now()), Now(), Spot(j.id, ino), steps)
      ensures Came(Now(), Spot(j.id, ino), steps, path)
    {
      hide Walker.Steady, Tale, Follow, LedBy, Walked, Came, Returns;
      ghost var t, s := Now(), Spot(j.id, ino);
      assert s in via && via[s] != steps && steps != [];
      ghost var from: Spot, k: nat :| LedBy(from, k, s, steps, path);
      c.Report(Cycle, InTree(path));
      RecordReturn(s, steps, path, from, k);
      ReturnWalked(t, Now(), s, steps, path);
    }

    /** Notes a return to a directory entered before, and the call that made it. */
    ghost method RecordReturn(s: Spot, steps: seq<nat>, path: seq<Bytes>, from: Spot, k: nat)
      requires Steady() && Telling(Returning(s, path)) && s in via && via[s] != steps && LedBy(from, k, s, steps, path)
      requires s.id in starts && c.vol.Opened(s.id).Some?
      requires Follow(c.vol.Opened(s.id).value, starts[s.id], steps) == Some(s.ino)
      modifies `trace, `calls
      ensures Valid() && calls == old(calls) + 1
      ensures Now() == old(Now()).(cycles := old(Now().cycles) + 1, told := old(Now().told) + {Returning(s, path)})
    {
      hide Tallied, Met, Queued, FilesChecked, Settled, Anchored, Contents.Valid, Contents.Cached, Heard, About, Tale,
           Follow, WayTo, Findings, Returns, AllRead;
      ghost var t, look := Now(), Returning(s, path);
      if AllRead(checked, trace) {
        StillRead(checked, trace, look);
      }
      OneMoreLook(c.vol, c.Recs(), trace, look);
      OneMoreReturn(trace, look);
      trace := trace + [look];
      calls := calls + 1;
      ghost var now := t.(cycles := t.cycles + 1, told := t.told + {look});
      assert Now() == now;
      ReturnGrew(t, now, look);
      CycleKeeps(t, now, c.vol, s, steps);
      ReturningAbout(c.vol, now, checked, from, k, s, steps, path);
      HeardStays(c.vol, t, now, checked, checked, {look});
    }

    method Enter(cat: Reader, j: Job, ino: i64, path: seq<Bytes>, ghost steps: seq<nat>)
      requires Valid() && Standing(cat, j, ino, steps) && Untrodden(Now(), j.id, steps) && ino !in walked
      requires LedTo(Spot(j.id, ino), steps, path)
      modifies `walked, `via, `at, `calls
      ensures Valid() && Standing(cat, j, ino, steps) && walked == old(walked) + {ino}
      ensures Inside(old(Now()), Now(), Spot(j.id, ino), steps)
      ensures Within(Spot(j.id, ino), steps, path)
      ensures forall l: nat :: Untrodden(Now(), j.id, steps + [l])
    {
      hide Walker.Steady, Walker.Told, Inside, Untrodden, Follow, OrderOk, Current, LedBy, PathTo;
      ghost var entered, s := via.Keys, Spot(j.id, ino);
      Tread(cat, s, path, steps);
      walked := walked + {ino};
      OneMoreEntered(c.vol, entered, finished, begun, checked, s);
      assert via.Keys == entered + {s};
    }

    ghost method Tread(cat: Reader, s: Spot, path: seq<Bytes>, steps: seq<nat>)
      requires Valid() && Untrodden(Now(), s.id, steps) && s !in via && PathTo(c.vol, s, path)
      requires c.vol.Opened(s.id) == Some(cat) && s.id in starts && Follow(cat, starts[s.id], steps) == Some(s.ino)
      modifies `via, `at, `calls
      ensures Valid() && via == old(via)[s := steps] && at == old(at)[s := path]
      ensures Inside(old(Now()), Now(), s, steps) && forall l: nat :: Untrodden(Now(), s.id, steps + [l])
    {
      hide Settled, Anchored, Inside, Untrodden, Contents.Valid, Contents.Cached, Tallied, FilesChecked, QueueOk, AllMet,
           StartsLanded, JobsPlaced, Follow, PathTo, Heard, Walker.Walking, Walker.Told, Returns;
      ghost var t := Now();
      NotYetAt(c.vol, t, checked, s);
      EnterAccounts(c.vol, t, checked, Counts(), s, steps, path);
      via := via[s := steps];
      at := at[s := path];
      calls := calls + 1;
      assert Now() == t.(via := t.via[s := steps], at := t.at[s := path]);
    }

    /** The directory's checks are complete. */
    method Finish(cat: Reader, j: Job, ino: i64, ghost path: seq<Bytes>, ghost t: Trail, ghost steps: seq<nat>)
      requires Valid() && Standing(cat, j, ino, steps) && Inside(t, Now(), Spot(j.id, ino), steps)
      requires Within(Spot(j.id, ino), steps, path) && Listing(Spot(j.id, ino), path) in Now().told
      requires LocatorsLooked(Now(), Spot(j.id, ino), |Locators(cat, ino)|)
      requires EntriesDone(Now(), cat, Spot(j.id, ino), |Entries(cat, ino)|)
      modifies `finished
      ensures Valid() && WalkedOf(j.id) && Walking(j.id) && Walked(t, Now(), Spot(j.id, ino), steps)
      ensures Came(Now(), Spot(j.id, ino), steps, path)
    {
      hide Tallied, Met, Queued, FilesChecked, Settled, Anchored, Contents.Valid, Contents.Cached, Follow, EntriesDone,
           LocatorsLooked, Entries, Locators, Heard, OrderOk, Current, Walker.Told, Inside, Walked, Came, Returns, Grew;
      ghost var now, s := Now(), Spot(j.id, ino);
      StandingAt(t, now, s, steps);
      FinishAccounts(c.vol, now, checked, s);
      finished := finished + {s};
      assert Now() == now.(finished := now.finished + {s});
      OneMoreFinished(via.Keys, now.finished, begun, s);
      InsideWalked(t, now, Now(), s, steps, path);
    }

    /** Every locator must have its dirent half; hands back the locators by name. */
    method CheckLocators(cat: Reader, j: Job, ino: i64, ds: seq<Dirent>, ns: seq<NestedEntry>, path: seq<Bytes>)
      returns (nested: map<Bytes, Bytes>)
      requires Valid() && cat.readdir(ino) == Ok((ds, ns)) && c.vol.Opened(j.id) == Some(cat)
      requires Spot(j.id, ino) in at && at[Spot(j.id, ino)] == path
      modifies c`problems, `trace
      ensures Valid() && Quiet(old(Now()), Now()) && ByName(nested, ns)
      ensures LocatorsLooked(Now(), Spot(j.id, ino), |ns|)
    {
      hide Walker.Valid, Quiet, HasDirent, Locator;
      var byName := NamesOf(ds);
      nested := map[];
      QuietItself(Now());
      NoLocators();
      for i := 0 to |ns|
        invariant Valid() && Quiet(old(Now()), Now()) && ByName(nested, ns[..i])
        invariant LocatorsLooked(Now(), Spot(j.id, ino), i)
      {
        ghost var t := Now();
        OneMoreLocator(nested, ns, i);
        nested := nested[ns[i].name := ns[i].identity];
        Half(ds, ns[i]);
        CheckHalf(cat, j, ino, ds, ns, i, byName, path);
        QuietTransitive(old(Now()), t, Now());
      }
      assert ns[..|ns|] == ns;
    }

    /** One locator. */
    method CheckHalf(cat: Reader, j: Job, ino: i64, ghost ds: seq<Dirent>, ns: seq<NestedEntry>, i: nat,
                     byName: set<Bytes>, path: seq<Bytes>)
      requires Valid() && cat.readdir(ino) == Ok((ds, ns)) && c.vol.Opened(j.id) == Some(cat) && i < |ns|
      requires Spot(j.id, ino) in at && at[Spot(j.id, ino)] == path && (ns[i].name in byName <==> HasDirent(ds, ns[i]))
      modifies c`problems, `trace
      ensures Valid() && Quiet(old(Now()), Now())
      ensures Now() == old(Now()).(told := old(Now().told) + {Locating(Spot(j.id, ino), i, path)})
    {
      hide Walker.Steady, Tale, Quiet, HasDirent;
      if ns[i].name !in byName {
        c.Report(Transition, InTree(path + [ns[i].name]));
      }
      Record(Locating(Spot(j.id, ino), i, path));
    }

    /** Each entry in turn. */
    method VisitEntries(cat: Reader, j: Job, ino: i64, path: seq<Bytes>, ds: seq<Dirent>, nested: map<Bytes, Bytes>,
                        ghost t: Trail, ghost steps: seq<nat>)
      requires Valid() && Standing(cat, j, ino, steps) && Inside(t, Now(), Spot(j.id, ino), steps)
      requires forall l: nat :: Untrodden(Now(), j.id, steps + [l])
      requires Within(Spot(j.id, ino), steps, path)
      requires Entries(cat, ino) == ds && ByName(nested, Locators(cat, ino))
      modifies this, c
      ensures Valid() && Standing(cat, j, ino, steps) && Inside(t, Now(), Spot(j.id, ino), steps)
      ensures Within(Spot(j.id, ino), steps, path)
      ensures Grew(old(Now()), Now()) && EntriesDone(Now(), cat, Spot(j.id, ino), |ds|)
      ensures old(queue) <= queue && begun == old(begun) && catalogs == old(catalogs) && old(walked) <= walked
      decreases |Unwalked(walked)|, 3
    {
      hide Walker.Valid, Walked, Inside, EntriesDone, Follow, Walker.WalkedOf, Walker.Walking, Untrodden, Grew,
           Locators, Entries, ByName;
      ghost var s := Spot(j.id, ino);
      GrewItself(Now());
      NoneDone(Now(), cat, s, steps, t);
      var i := 0;
      while i < |ds|
        invariant i <= |ds| && Valid() && Standing(cat, j, ino, steps) && Inside(t, Now(), s, steps)
        invariant Within(s, steps, path)
        invariant forall l: nat :: l >= i ==> Untrodden(Now(), j.id, steps + [l])
        invariant Grew(old(Now()), Now()) && EntriesDone(Now(), cat, s, i)
        invariant old(queue) <= queue && begun == old(begun) && catalogs == old(catalogs) && old(walked) <= walked
      {
        ghost var before := Now();
        FewerUnwalked(old(walked), walked);
        DoneQueued(before, c.vol, cat, s, i);
        VisitEntry(cat, j, ino, path, ds[i], i, nested, steps);
        InsideDeeper(t, before, Now(), s, steps, i);
        LaterUntrodden(before, Now(), j.id, steps, i);
        GrewTransitive(old(Now()), before, Now());
        OneMoreDone(before, Now(), cat, s, i, t, steps);
        i := i + 1;
      }
    }

    /**
      One entry: its node must be there and of its type.  A subdirectory is walked, or queued if a
      locator says it is another catalog's; a file is checked the first time it is reached.
     */
    method VisitEntry(cat: Reader, j: Job, ino: i64, path: seq<Bytes>, d: Dirent, k: nat, nested: map<Bytes, Bytes>,
                      ghost steps: seq<nat>)
      requires Valid() && Standing(cat, j, ino, steps) && Untrodden(Now(), j.id, steps + [k])
      requires Within(Spot(j.id, ino), steps, path)
      requires k < |Entries(cat, ino)| && d == Entries(cat, ino)[k] && ByName(nested, Locators(cat, ino))
      requires EarlierQueued(c.vol, starts, Spot(j.id, ino), k)
      modifies this, c
      ensures Valid() && Standing(cat, j, ino, steps) && Visited(old(Now()), Now(), Spot(j.id, ino), k)
      ensures Within(Spot(j.id, ino), steps, path) && EntryDone(Now(), cat, Spot(j.id, ino), k)
      ensures old(queue) <= queue && begun == old(begun) && catalogs == old(catalogs) && old(walked) <= walked
      decreases |Unwalked(walked)|, 2
    {
      hide Walker.Valid, Follow, Walker.WalkedOf, Walker.Walking, Untrodden, Grew, Locators, ByName, Quiet, Visited,
           SamePending, Through;
      ghost var t, s := Now(), Spot(j.id, ino);
      LookAtEntry(cat, j, ino, path, d, k);
      ghost var named := Now();
      match cat.stat(d.inode)
      case Err(_) =>
        QuietVisited(t, named, s, k);
        LostDone(t, named, cat, s, k);
      case Ok(n) =>
        QuietStays(t, named, j.id, steps, k);
        if n.typ == TYPE_DIR {
          VisitSubdir(cat, j, ino, path, d, k, n, nested, steps);
          VisitedLater(t, named, Now(), s, k);
        } else {
          VisitLeaf(cat, j, ino, d, k, n, path);
          QuietTransitive(t, named, Now());
          QuietVisited(t, Now(), s, k);
          StillLooked(named, Now(), cat, s, k);
          LeafDone(t, Now(), cat, s, k, n);
        }
    }

    /** The entry's node must be there, and of the entry's type. */
    method LookAtEntry(cat: Reader, j: Job, ino: i64, path: seq<Bytes>, d: Dirent, k: nat)
      requires Valid() && c.vol.Opened(j.id) == Some(cat) && k < |Entries(cat, ino)| && d == Entries(cat, ino)[k]
      requires Spot(j.id, ino) in via && Spot(j.id, ino) in at && at[Spot(j.id, ino)] == path
      modifies c`problems, `trace
      ensures Valid() && Quiet(old(Now()), Now()) && NameLooked(Now(), cat, Spot(j.id, ino), k)
      ensures Now() == old(Now()).(told := old(Now().told) + {Naming(Spot(j.id, ino), k, path)})
    {
      hide Walker.Steady, Tale, Quiet, Entries, Locators;
      match cat.stat(d.inode)
      case Err(e) =>
        c.Report(if e == NotExist then DanglingDirent else BadCatalog, InTree(path + [d.name]));
        Record(Naming(Spot(j.id, ino), k, path));
      case Ok(n) =>
        if n.typ != d.typ {
          c.Report(TypeMismatch, InTree(path + [d.name]));
        }
        Record(Naming(Spot(j.id, ino), k, path));
    }

    /** A symlink must have its target; a file is checked once; anything else is only marked. */
    method VisitLeaf(cat: Reader, j: Job, ghost ino: i64, d: Dirent, ghost k: nat, n: Node, path: seq<Bytes>)
      requires Valid() && c.vol.Opened(j.id) == Some(cat) && cat.stat(d.inode) == Ok(n) && n.typ != TYPE_DIR
      requires Spot(j.id, ino) in via && Spot(j.id, ino) in at && at[Spot(j.id, ino)] == path
      requires Walking(j.id) && k < |Entries(cat, ino)| && d == Entries(cat, ino)[k]
      modifies `seenInode, `symlinks, `linkInodes, `files, `bytes, `fileInodes, `checked, `specials, `trace,
               c`problems, c`chunks, c`seen, c`named, c`inlineFiles, c`shards
      ensures Valid() && Quiet(old(Now()), Now()) && d.inode in seenInode && Walking(j.id)
      ensures n.typ == TYPE_SYMLINK ==> Linking(Spot(j.id, ino), k, path) in Now().told
    {
      hide Walker.Valid, Walker.Walking, Quiet, Entries, Locators;
      ghost var s := Spot(j.id, ino);
      assert EntryIs(c.vol, s, k, d.inode, n);
      if n.typ == TYPE_SYMLINK {
        CountSymlink(d.inode);
        ghost var t := Now();
        ReadLink(cat, j, ino, d, k, path);
        QuietTransitive(old(Now()), t, Now());
      } else if n.typ == TYPE_FILE {
        assert FileAt(c.vol, Now(), s, k, Checked(j.id, d.inode, n), path + [d.name]);
        VisitFile(cat, j.id, d.inode, n, path + [d.name], s, k);
      } else {
        assert MetAs(c.vol, via.Keys, d.inode, n.typ);
        MarkSpecial(d.inode);
      }
    }

    method ReadLink(cat: Reader, j: Job, ghost ino: i64, d: Dirent, ghost k: nat, path: seq<Bytes>)
      requires Valid() && c.vol.Opened(j.id) == Some(cat) && k < |Entries(cat, ino)| && d == Entries(cat, ino)[k]
      requires IsLink(cat, ino, k) && Spot(j.id, ino) in at && at[Spot(j.id, ino)] == path
      modifies c`problems, `trace
      ensures Valid() && Quiet(old(Now()), Now())
      ensures Now() == old(Now()).(told := old(Now().told) + {Linking(Spot(j.id, ino), k, path)})
    {
      hide Walker.Steady, Tale, Quiet, Entries, Locators;
      if cat.symlink(d.inode).Err? {
        c.Report(ContentRows, InTree(path + [d.name]));
      }
      Record(Linking(Spot(j.id, ino), k, path));
    }

    /** A subdirectory: another catalog's if there is a locator for it, this one's otherwise. */
    method VisitSubdir(cat: Reader, j: Job, ino: i64, path: seq<Bytes>, d: Dirent, k: nat, n: Node,
                       nested: map<Bytes, Bytes>, ghost steps: seq<nat>)
      requires Valid() && Standing(cat, j, ino, steps) && Untrodden(Now(), j.id, steps + [k])
      requires Within(Spot(j.id, ino), steps, path) && NameLooked(Now(), cat, Spot(j.id, ino), k)
      requires k < |Entries(cat, ino)| && d == Entries(cat, ino)[k] && ByName(nested, Locators(cat, ino))
      requires cat.stat(d.inode) == Ok(n) && n.typ == TYPE_DIR && EarlierQueued(c.vol, starts, Spot(j.id, ino), k)
      modifies this, c
      ensures Valid() && Standing(cat, j, ino, steps) && Visited(old(Now()), Now(), Spot(j.id, ino), k)
      ensures Within(Spot(j.id, ino), steps, path) && EntryDone(Now(), cat, Spot(j.id, ino), k)
      ensures old(queue) <= queue && begun == old(begun) && catalogs == old(catalogs) && old(walked) <= walked
      decreases |Unwalked(walked)|, 1
    {
      hide Walker.Valid, Follow, Walker.WalkedOf, Walker.Walking, Grew, Quiet, Visited, Walked, Untrodden, ByName,
           Entries, Locators, PathTo, Came, NameLooked, EntryDone, EarlierQueued, Walker.LedTo, Returns;
      ghost var t, s := Now(), Spot(j.id, ino);
      var childPath := path + [d.name];
      assert EntryIs(c.vol, s, k, d.inode, n);
      CountDir(d.inode);
      ghost var counted := Now();
      QuietStays(t, counted, j.id, steps, k);
      LocatorIs(nested, Locators(cat, ino), d.name);
      if d.name in nested {
        CrossOver(cat, j, ino, d, k, nested[d.name], path);
        QuietTransitive(t, counted, Now());
        QuietStays(t, Now(), j.id, steps, k);
        QuietVisited(t, Now(), s, k);
        StillLooked(t, Now(), cat, s, k);
        CrossDone(t, Now(), cat, s, k);
      } else {
        FollowStep(cat, starts[j.id], steps, k);
        Descending(cat, j, ino, d, k, steps, path);
        WalkDir(cat, j, d.inode, childPath, steps + [k]);
        SubdirDone(t, counted, Now(), cat, s, k);
      }
    }

    /** The way into a subdirectory. */
    lemma Descending(cat: Reader, j: Job, ino: i64, d: Dirent, k: nat, steps: seq<nat>, path: seq<Bytes>)
      requires Valid() && c.vol.Opened(j.id) == Some(cat) && Within(Spot(j.id, ino), steps, path)
      requires k < |Entries(cat, ino)| && d == Entries(cat, ino)[k] && cat.stat(d.inode).Ok?
      requires cat.stat(d.inode).value.typ == TYPE_DIR && Locator(Locators(cat, ino), d.name).None?
      ensures LedTo(Spot(j.id, d.inode), steps + [k], path + [d.name])
    {
      hide Contents.Valid, Contents.Cached, Tallied, FilesChecked, Queued, Met, About, Settled, Anchored, Entries, Locators,
           PathTo, Walker.Told;
      ghost var s := Spot(j.id, ino);
      assert Hop(c.vol, s, k) == Some(Spot(j.id, d.inode));
      HopPath(c.vol, s, path, k);
      assert NameOf(c.vol, s, k) == [d.name];
      assert LedBy(s, k, Spot(j.id, d.inode), steps + [k], path + [d.name]);
    }

    /** A transition point: its catalog is queued the first time it is met. */
    method CrossOver(cat: Reader, j: Job, ghost ino: i64, d: Dirent, ghost k: nat, id: Bytes, path: seq<Bytes>)
      requires Valid() && c.vol.Opened(j.id) == Some(cat) && Locator(Locators(cat, ino), d.name) == Some(id)
      requires Spot(j.id, ino) in via && Spot(j.id, ino) in at && at[Spot(j.id, ino)] == path
      requires k < |Entries(cat, ino)| && d == Entries(cat, ino)[k]
      requires cat.stat(d.inode).Ok? && cat.stat(d.inode).value.typ == TYPE_DIR
      requires EarlierQueued(c.vol, starts, Spot(j.id, ino), k)
      modifies c`problems, `visited, `queue, `starts, `trace
      ensures Valid() && Quiet(old(Now()), Now()) && old(queue) <= queue
      ensures Crossing(Spot(j.id, ino), k, path) in Now().told && (|id| == FsckVolume.ID_LEN ==> id in starts)
    {
      hide Walker.Valid, Quiet, Entries, Locators, Locator;
      ghost var t := Now();
      CheckLocator(cat, j, ino, d, k, id, path);
      if |id| == FsckVolume.ID_LEN {
        ghost var looked := Now();
        Enqueue(cat, j, ino, d, k, id, path);
        QuietTransitive(t, looked, Now());
        StillTold(looked, Now(), Crossing(Spot(j.id, ino), k, path));
      }
    }

    /** A locator must be a whole identity. */
    method CheckLocator(cat: Reader, j: Job, ghost ino: i64, d: Dirent, ghost k: nat, id: Bytes, path: seq<Bytes>)
      requires Valid() && c.vol.Opened(j.id) == Some(cat) && Locator(Locators(cat, ino), d.name) == Some(id)
      requires Spot(j.id, ino) in at && at[Spot(j.id, ino)] == path && k < |Entries(cat, ino)|
      requires d == Entries(cat, ino)[k]
      requires cat.stat(d.inode).Ok? && cat.stat(d.inode).value.typ == TYPE_DIR
      modifies c`problems, `trace
      ensures Valid() && Quiet(old(Now()), Now())
      ensures Now() == old(Now()).(told := old(Now().told) + {Crossing(Spot(j.id, ino), k, path)})
    {
      hide Walker.Steady, Tale, Quiet, Entries, Locators, Locator;
      if |id| != FsckVolume.ID_LEN {
        c.Report(Transition, InTree(path + [d.name]));
      }
      Record(Crossing(Spot(j.id, ino), k, path));
    }

    /** Content addressing lets two transition points name one catalog: it is queued once. */
    method Enqueue(cat: Reader, j: Job, ghost ino: i64, d: Dirent, ghost k: nat, id: Bytes, path: seq<Bytes>)
      requires Valid() && c.vol.Opened(j.id) == Some(cat) && Locator(Locators(cat, ino), d.name) == Some(id)
      requires Spot(j.id, ino) in via && Spot(j.id, ino) in at && at[Spot(j.id, ino)] == path
      requires k < |Entries(cat, ino)| && d == Entries(cat, ino)[k] && |id| == FsckVolume.ID_LEN
      requires cat.stat(d.inode).Ok? && cat.stat(d.inode).value.typ == TYPE_DIR
      requires EarlierQueued(c.vol, starts, Spot(j.id, ino), k)
      modifies `visited, `queue, `starts
      ensures Valid() && Quiet(old(Now()), Now()) && old(queue) <= queue && id in starts
    {
      hide Tallied, Met, Settled, Anchored, Contents.Valid, Contents.Cached, FilesChecked, Quiet, Locators, Entries, Nameable,
           QueueOk, Heard, PathTo, StartsLanded, EarlierQueued, Walker.Told, Returns, JobsPlaced;
      ghost var t := Now();
      QuietItself(t);
      QueueIds(c.vol, visited, queue, starts);
      if id in visited {
        return;
      }
      CrossingNameable(c.vol, j.id, ino, d);
      OneMoreStart(c.vol, t, Spot(j.id, ino), k, Spot(id, d.inode));
      OneMoreJob(c.vol, visited, queue, starts, Job(id, d.inode, path + [d.name]));
      QueueAccounts(c.vol, t, checked, id, d.inode);
      EnteredPath(c.vol, t, checked, Spot(j.id, ino));
      HopPath(c.vol, Spot(j.id, ino), path, k);
      assert NameOf(c.vol, Spot(j.id, ino), k) == [d.name];
      OneMorePlaced(c.vol, queue, Job(id, d.inode, path + [d.name]));
      visited := visited + {id};
      queue := queue + [Job(id, d.inode, path + [d.name])];
      starts := starts[id := d.inode];
      assert Now() == t.(starts := t.starts[id := d.inode]);
    }

    // ---------- Catalogs ----------

    /** The root directory counts whatever its catalog says of it. */
    method Begin(cat: Reader)
      requires Ready() && c.vol.Opened(c.vol.root) == Some(cat)
      modifies `seenInode, `dirs, `dirInodes, `visited, `queue, `starts, `begun, `catalogs, `trace, c`problems
      ensures Valid() && queue == [Job(c.vol.root, ROOT_INODE, [])] && via == map[] && finished == {}
      ensures begun == [c.vol.root] && catalogs == 1 && CatalogLooked(Now(), c.vol, c.vol.root, [])
    {
      hide Walker.Valid, Contents.Valid, Contents.Cached, Walker.Told;
      SetOff();
      StartedValid();
      CheckRoot(cat);
    }

    /** What the first assignments leave: the root counted, queued and begun, everything else as it was. */
    ghost predicate Started()
      reads this, c, c.index, c.index.table
    {
      && c.Valid() && c.Cached() && c.named == {} && c.inlineFiles == 0 && files == symlinks == bytes == calls == 0 && dirs == 1
      && seenInode == dirInodes == {ROOT_INODE} && linkInodes == specials == fileInodes == {} && checked == []
      && visited == {c.vol.root} && queue == [Job(c.vol.root, ROOT_INODE, [])] && starts == map[c.vol.root := ROOT_INODE]
      && via == map[] && at == map[] && finished == {} && trace == [Opening] && Told()
    }

    lemma StartedValid()
      requires Started()
      ensures Valid() && Opening in Now().told && starts == map[c.vol.root := ROOT_INODE]
    {
      hide AllChecked, Contents.Valid, Contents.Cached, Nameable, TallyOk, AllMet, QueueOk, Settled, Anchored, Walker.Told,
           PathTo;
      assert c.index.Valid() by { IndexThere(); }
      NothingChecked(c.vol, c.Recs());
      FirstTally();
      assert via.Keys == {};
      FirstMet(c.vol, Counts());
      FirstQueue(c.vol);
      RootPath(c.vol);
      assert Returns([Opening]) == 0 by { OneMoreReturn([], Opening); }
      FirstTrail(Now(), c.vol);
    }

    lemma IndexThere()
      requires Told()
      ensures c.index.Valid()
    {
    }

    method SetOff()
      modifies `seenInode, `dirs, `dirInodes, `visited, `queue, `starts, `begun, `catalogs
      ensures seenInode == dirInodes == {ROOT_INODE} && dirs == 1 && visited == {c.vol.root}
      ensures queue == [Job(c.vol.root, ROOT_INODE, [])] && starts == map[c.vol.root := ROOT_INODE]
      ensures begun == [c.vol.root] && catalogs == 1
    {
      seenInode, dirInodes, dirs := {ROOT_INODE}, {ROOT_INODE}, 1;
      visited, queue := {c.vol.root}, [Job(c.vol.root, ROOT_INODE, [])];
      starts := map[c.vol.root := ROOT_INODE];
      begun, catalogs := [c.vol.root], 1;
    }

    method CheckRoot(cat: Reader)
      requires Valid() && c.vol.Opened(c.vol.root) == Some(cat) && starts == map[c.vol.root := ROOT_INODE]
      requires Opening in Now().told
      modifies c`problems, `trace
      ensures Valid() && CatalogLooked(Now(), c.vol, c.vol.root, [])
    {
      hide Walker.Steady, Tale, Quiet, PathTo;
      if cat.stat(ROOT_INODE).Err? {
        c.Report(DanglingDirent, InTree([]));
      }
      Record(RootNode);
      RootPath(c.vol);
      if !cat.ordered {
        c.Report(BadCatalog, InTree([]));
      }
      Record(Ordering(c.vol.root, []));
    }

    /** Walks one catalog from the directory it covers. */
    method Descend(j: Job, cat: Reader)
      requires Valid() && c.vol.Opened(j.id) == Some(cat) && j.id in starts && starts[j.id] == j.ino
      requires PathTo(c.vol, Spot(j.id, j.ino), j.path)
      requires Walking(j.id) && forall s :: s in via ==> s.id != j.id
      modifies this, c
      ensures Valid() && Walking(j.id) && Walked(old(Now()), Now(), Spot(j.id, j.ino), [])
      ensures old(queue) <= queue && begun == old(begun) && catalogs == old(catalogs)
    {
      hide Walker.Steady, Walker.Told, Walked, PathTo, Walker.Walking;
      walked := {};
      WalkDir(cat, j, j.ino, j.path, []);
    }

    /** Fetches the catalog of a job. */
    method FetchCatalog(j: Job) returns (r: Option<Reader>)
      requires Valid() && j.id in starts && PathTo(c.vol, Spot(j.id, starts[j.id]), j.path)
      modifies c`problems, `trace
      ensures Valid() && Quiet(old(Now()), Now()) && r == c.vol.Opened(j.id)
      ensures Now() == old(Now()).(told := old(Now().told) + {Fetching(j.id, j.path)})
    {
      hide Walker.Steady, Tale, Quiet, PathTo, ObjectFindings;
      r := c.OpenObject(j.id, InTree(j.path), MissingCatalog, BadCatalog);
      Record(Fetching(j.id, j.path));
    }

    /** Opens the catalog of a job, and looks at its order before anything else. */
    method OpenCatalog(j: Job) returns (r: Option<Reader>)
      requires Valid() && j.id in starts && PathTo(c.vol, Spot(j.id, starts[j.id]), j.path) && j.id != c.vol.root
      modifies c`problems, `begun, `catalogs, `trace
      ensures Valid() && Quiet(old(Now()), Now()) && r == c.vol.Opened(j.id)
      ensures CatalogLooked(Now(), c.vol, j.id, j.path)
      ensures r.None? ==> begun == old(begun) && catalogs == old(catalogs)
      ensures r.Some? ==> begun == old(begun) + [j.id] && catalogs == old(catalogs) + 1
    {
      hide Walker.Valid, Quiet, PathTo;
      r := FetchCatalog(j);
      if r.None? {
        return;
      }
      ghost var fetched := Now();
      CountCatalog(j);
      CheckOrder(r.value, j);
      QuietTransitive(old(Now()), fetched, Now());
    }

    method CheckOrder(cat: Reader, j: Job)
      requires Valid() && j.id in starts && PathTo(c.vol, Spot(j.id, starts[j.id]), j.path)
      requires c.vol.Opened(j.id) == Some(cat)
      modifies c`problems, `trace
      ensures Valid() && Quiet(old(Now()), Now())
      ensures Now() == old(Now()).(told := old(Now().told) + {Ordering(j.id, j.path)})
    {
      hide Walker.Steady, Tale, Quiet, PathTo;
      if !cat.ordered {
        c.Report(BadCatalog, InTree(j.path));
      }
      Record(Ordering(j.id, j.path));
    }

    method CountCatalog(j: Job)
      requires Valid()
      modifies `begun, `catalogs
      ensures Valid() && begun == old(begun) + [j.id] && catalogs == old(catalogs) + 1
    {
      hide Contents.Valid, Contents.Cached, Tallied, FilesChecked, Queued, Met, Heeded, Settled, Anchored, Walker.Told;
      catalogs := catalogs + 1;
      begun := begun + [j.id];
    }

    /** The first i jobs are behind us. */
    ghost predicate Progress(root: Reader, i: nat)
      reads this, c
    {
      && ProgressOk(c.vol, Now(), queue, begun, i) && catalogs == |begun| && InOrder()
      && begun != [] && begun[0] == c.vol.root
      && c.vol.Opened(c.vol.root) == Some(root)
    }

    /** The parts of Valid that reach across catalogs. */
    lemma Parts()
      requires Valid()
      ensures QueueOk(c.vol, visited, queue, starts) && Settled(Now(), c.vol) && Anchored(Now(), c.vol)
      ensures JobsPlaced(c.vol, queue)
    {
    }

    /** The parts of Valid about what has been met and found. */
    lemma Accounts()
      requires Valid()
      ensures Tallied() && Met() && StartsLanded(c.vol, via.Keys, starts) && Anchored(Now(), c.vol)
      ensures Heard(c.vol, Now(), checked) && Told() && FilesChecked()
    {
    }

    lemma Files()
      requires Valid()
      ensures forall f :: f in checked ==> FileChecked(c.vol, f) && exists path :: Reading(f, path) in Now().told
    {
      hide Contents.Valid, Contents.Cached, Tallied, Queued, Met, Heeded, Settled, Anchored, FileChecked, Tale;
    }

    method NextJob(root: Reader, i: nat)
      requires Valid() && i < |queue| && Progress(root, i)
      modifies this, c
      ensures Valid() && i < |queue| && Progress(root, i + 1)
    {
      hide Walker.Valid, Walked, Quiet, QueueOk, Settled, Anchored, ProgressOk, ReadyOk, OrderOk, Current, CatalogLooked;
      var j := queue[i];
      var cat := root;
      ghost var t, began := Now(), begun;
      Parts();
      FirstIsRoot(c.vol, t, queue, begun, i);
      QuietItself(t);
      JobAhead(c.vol, t, t, visited, queue, starts, begun, i);
      if i == 0 {
        RootReady(c.vol, t, queue, begun);
      } else {
        RootFirst(c.vol, visited, queue, starts, t, begun, i);
        var r := OpenCatalog(j);
        if r.None? {
          SkippedStep(c.vol, t, Now(), visited, queue, starts, begun, i);
          return;
        }
        cat := r.value;
        OthersReady(c.vol, t, Now(), visited, queue, starts, began, i);
      }
      ghost var ready := Now();
      JobAhead(c.vol, t, ready, visited, queue, starts, began, i);
      JobCurrent(c.vol, ready, queue, began, begun, i, checked);
      Descend(j, cat);
      Parts();
      DescendedStep(c.vol, ready, Now(), old(queue), queue, begun, i);
    }

    /**
      Descends the whole namespace, catalog by catalog, until the queue is done or the caller gives
      up.  Every catalog is begun at most once, and the walk ends on any graph of catalogs.  A file is
      checked in the first catalog begun that lists it.
     */
    method Walk(root: Reader, alive: nat -> bool) returns (complete: bool)
      requires Ready() && c.vol.Opened(c.vol.root) == Some(root)
      modifies this, c
      ensures Valid() && catalogs == |begun| && BegunOnce(c.vol, begun)
      ensures InOrder() && begun != [] && begun[0] == c.vol.root
      ensures c.vol.root in starts && starts[c.vol.root] == ROOT_INODE
      ensures complete <==> forall i: nat :: i < |queue| ==> alive(i)
      ensures complete ==> Over(Now(), c.vol) && AllLooked(Now(), c.vol)
    {
      hide Walker.Valid, Over, AllLooked, BegunOnce, Nameable, QueueOk, Settled, Anchored, ProgressOk, CatalogLooked;
      Begin(root);
      JustBegun(c.vol, Now(), queue, begun);
      var i := 0;
      while i < |queue|
        invariant i <= |queue| && Valid() && Progress(root, i) && forall k: nat :: k < i ==> alive(k)
        decreases |Nameable(c.vol)| - i
      {
        FewJobs(root, i);
        if !alive(i) {
          BegunSoFar(c.vol, Now(), queue, begun, i);
          RootQueued(root, i);
          return false;
        }
        NextJob(root, i);
        i := i + 1;
      }
      Parts();
      AllDone(c.vol, Now(), visited, queue, starts, begun);
      return true;
    }

    lemma RootQueued(root: Reader, i: nat)
      requires Valid() && Progress(root, i)
      ensures c.vol.root in starts && starts[c.vol.root] == ROOT_INODE
    {
      hide Walker.Valid, Nameable;
      Parts();
      assert queue[0].id in starts;
    }

    lemma FewJobs(root: Reader, i: nat)
      requires Valid() && Progress(root, i) && i < |queue|
      ensures i < |Nameable(c.vol)|
    {
      hide ProgressOk, Nameable, Walker.Progress;
      Parts();
      Smaller(visited, Nameable(c.vol));
    }

    method NamesOf(ds: seq<Dirent>) returns (byName: set<Bytes>)
      ensures forall name :: name in byName <==> exists k :: 0 <= k < |ds| && ds[k].name == name
    {
      byName := {};
      for i := 0 to |ds|
        invariant forall name :: name in byName <==> exists k :: 0 <= k < i && ds[k].name == name
      {
        byName := byName + {ds[i].name};
      }
    }
  }
}
