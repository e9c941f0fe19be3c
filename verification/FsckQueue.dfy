/** The queue of catalogs, and what holds of the trail between one catalog and the next. */
module FsckQueue {
  import opened Bytes
  import opened LittleEndian
  import opened FsckVolume
  import opened FsckReport
  import opened FsckTrail
  import opened FsckSteps
  import opened FsckTally
  import opened FsckOrder

  /** One catalog to descend into, with the inode and path of the directory it covers. */
  datatype Job = Job(id: Bytes, ino: i64, path: seq<Bytes>)

  // ---------- The queue ----------

  ghost predicate QueueOk(vol: Volume, visited: set<Bytes>, queue: seq<Job>, starts: map<Bytes, i64>) {
    && visited == starts.Keys && visited <= Nameable(vol) && |queue| == |visited|
    && (forall i :: 0 <= i < |queue| ==> queue[i].id in starts && starts[queue[i].id] == queue[i].ino)
    && (forall i, j :: 0 <= i < j < |queue| ==> queue[i].id != queue[j].id)
  }

  /** Every job's path leads to the directory it covers. */
  ghost predicate JobsPlaced(vol: Volume, queue: seq<Job>) {
    forall i :: 0 <= i < |queue| ==> PathTo(vol, Spot(queue[i].id, queue[i].ino), queue[i].path)
  }

  lemma OneMorePlaced(vol: Volume, queue: seq<Job>, j: Job)
    requires JobsPlaced(vol, queue) && PathTo(vol, Spot(j.id, j.ino), j.path)
    ensures JobsPlaced(vol, queue + [j])
  {
    hide PathTo;
  }

  lemma OneMoreJob(vol: Volume, visited: set<Bytes>, queue: seq<Job>, starts: map<Bytes, i64>, j: Job)
    requires QueueOk(vol, visited, queue, starts) && j.id !in visited && j.id in Nameable(vol)
    ensures QueueOk(vol, visited + {j.id}, queue + [j], starts[j.id := j.ino])
  {
    hide Nameable;
  }

  ghost function Ids(queue: seq<Job>): set<Bytes> {
    set m | 0 <= m < |queue| :: queue[m].id
  }

  /** A queue as long as its set of identities leaves none out. */
  lemma AllQueued(vol: Volume, visited: set<Bytes>, queue: seq<Job>, starts: map<Bytes, i64>)
    requires QueueOk(vol, visited, queue, starts)
    ensures forall id :: id in starts ==> exists m :: 0 <= m < |queue| && queue[m].id == id
  {
    DistinctCount(queue);
    assert Ids(queue) <= visited;
    Smaller(Ids(queue), visited);
    assert Ids(queue) == visited;
  }

  lemma {:induction false} DistinctCount(queue: seq<Job>)
    requires forall i, j :: 0 <= i < j < |queue| ==> queue[i].id != queue[j].id
    ensures |Ids(queue)| == |queue|
  {
    if queue != [] {
      var n := |queue| - 1;
      DistinctCount(queue[..n]);
      OneMoreId(queue[..n], queue[n]);
      assert queue == queue[..n] + [queue[n]];
      assert queue[n].id !in Ids(queue[..n]);
    }
  }

  lemma OneMoreId(queue: seq<Job>, j: Job)
    ensures Ids(queue + [j]) == Ids(queue) + {j.id}
  {
    var all := queue + [j];
    forall id | id in Ids(queue) + {j.id}
      ensures id in Ids(all)
    {
      if id in Ids(queue) {
        var m :| 0 <= m < |queue| && queue[m].id == id;
        assert all[m].id == id;
      } else {
        assert all[|queue|].id == id;
      }
    }
  }

  // ---------- Between catalogs ----------

  ghost predicate Resting(t: Trail) {
    t.finished == t.via.Keys
  }

  ghost predicate OnlyUpTo(t: Trail, queue: seq<Job>, i: nat) {
    i <= |queue| && forall s :: s in t.via ==> exists m :: 0 <= m < i && queue[m].id == s.id
  }

  ghost predicate DoneUpTo(t: Trail, vol: Volume, queue: seq<Job>, i: nat) {
    i <= |queue| && forall m :: 0 <= m < i && vol.Opened(queue[m].id).Some? ==>
      Spot(queue[m].id, queue[m].ino) in t.via && (t.cycles == 0 ==> t.via[Spot(queue[m].id, queue[m].ino)] == [])
  }

  /** The catalog's object has been looked at, the root's with the shards, and its order if it opens. */
  ghost predicate CatalogLooked(t: Trail, vol: Volume, id: Bytes, path: seq<Bytes>) {
    && (if id == vol.root then path == [] && Opening in t.told && RootNode in t.told else Fetching(id, path) in t.told)
    && (vol.Opened(id).Some? ==> Ordering(id, path) in t.told)
  }

  ghost predicate LookedUpTo(t: Trail, vol: Volume, queue: seq<Job>, i: nat) {
    i <= |queue| && forall m :: 0 <= m < i ==> CatalogLooked(t, vol, queue[m].id, queue[m].path)
  }

  /** The catalogs begun: each openable job's once, in the order of the jobs. */
  ghost predicate BegunOk(vol: Volume, queue: seq<Job>, begun: seq<Bytes>, i: nat) {
    && i <= |queue| && BegunOnce(vol, begun)
    && (forall a :: 0 <= a < |begun| ==> AmongFirst(queue, i, begun[a]))
    && (forall m :: 0 <= m < i && vol.Opened(queue[m].id).Some? ==> queue[m].id in begun)
  }

  ghost predicate AmongFirst(queue: seq<Job>, i: nat, id: Bytes)
    requires i <= |queue|
  {
    exists m :: 0 <= m < i && queue[m].id == id
  }

  ghost predicate BegunOnce(vol: Volume, begun: seq<Bytes>) {
    && (forall a, b :: 0 <= a < b < |begun| ==> begun[a] != begun[b])
    && forall a :: 0 <= a < |begun| ==> vol.Opened(begun[a]).Some?
  }

  /** Every catalog queued has been looked at. */
  ghost predicate AllLooked(t: Trail, vol: Volume) {
    forall id :: id in t.starts ==> exists path :: CatalogLooked(t, vol, id, path)
  }

  /** Every catalog queued opens, hashes to its name and is in order, and the root has its node. */
  ghost predicate CatalogsSound(t: Trail, vol: Volume) {
    && (forall id :: id in t.starts ==> vol.Honest(id) && vol.Opened(id).value.ordered)
    && vol.Opened(vol.root).Some? && vol.Opened(vol.root).value.stat(ROOT_INODE).Ok?
  }

  lemma RootNameable(vol: Volume)
    ensures vol.root in Nameable(vol)
  {
  }

  lemma FirstQueue(vol: Volume)
    ensures QueueOk(vol, {vol.root}, [Job(vol.root, ROOT_INODE, [])], map[vol.root := ROOT_INODE])
  {
    hide Nameable;
    RootNameable(vol);
  }

  /** Between catalogs, with the first i jobs done; the root's is begun before it is done. */
  ghost predicate ProgressOk(vol: Volume, t: Trail, queue: seq<Job>, begun: seq<Bytes>, i: nat) {
    && Resting(t) && OnlyUpTo(t, queue, i) && DoneUpTo(t, vol, queue, i)
    && queue != [] && queue[0] == Job(vol.root, ROOT_INODE, []) && vol.Opened(vol.root).Some?
    && LookedUpTo(t, vol, queue, if i == 0 then 1 else i)
    && BegunOk(vol, queue, begun, if i == 0 then 1 else i)
  }

  lemma JustBegun(vol: Volume, t: Trail, queue: seq<Job>, begun: seq<Bytes>)
    requires queue == [Job(vol.root, ROOT_INODE, [])] && t.via == map[] && t.finished == {} && begun == [vol.root]
    requires vol.Opened(vol.root).Some? && CatalogLooked(t, vol, vol.root, [])
    ensures ProgressOk(vol, t, queue, begun, 0)
  {
    assert queue[0].id == begun[0];
  }

  lemma FirstIsRoot(vol: Volume, t: Trail, queue: seq<Job>, begun: seq<Bytes>, i: nat)
    requires ProgressOk(vol, t, queue, begun, i)
    ensures i == 0 ==> queue != [] && queue[0].id == vol.root
  {
  }

  /** Only the first job is the root's. */
  lemma RootFirst(vol: Volume, visited: set<Bytes>, queue: seq<Job>, starts: map<Bytes, i64>, t: Trail,
                  begun: seq<Bytes>,
                  i: nat)
    requires QueueOk(vol, visited, queue, starts) && 0 < i < |queue| && ProgressOk(vol, t, queue, begun, i)
    ensures queue[i].id != vol.root
  {
    hide Nameable, LookedUpTo, BegunOk, OnlyUpTo, DoneUpTo;
  }

  lemma BegunSoFar(vol: Volume, t: Trail, queue: seq<Job>, begun: seq<Bytes>, i: nat)
    requires ProgressOk(vol, t, queue, begun, i)
    ensures BegunOnce(vol, begun)
  {
  }

  /** A job not yet reached has nothing entered, and starts where the queue says. */
  lemma JobAhead(vol: Volume, t: Trail, ready: Trail, visited: set<Bytes>, queue: seq<Job>, starts: map<Bytes, i64>,
                 begun: seq<Bytes>, i: nat)
    requires QueueOk(vol, visited, queue, starts) && i < |queue| && ProgressOk(vol, t, queue, begun, i)
    requires Quiet(t, ready)
    ensures queue[i].id in starts && starts[queue[i].id] == queue[i].ino
    ensures forall s :: s in ready.via ==> s.id != queue[i].id
  {
    hide DoneUpTo, LookedUpTo, BegunOk, Grew, Nameable;
    assert OnlyUpTo(t, queue, i);
  }

  lemma SkippedStep(vol: Volume, t: Trail, now: Trail, visited: set<Bytes>, queue: seq<Job>, starts: map<Bytes, i64>,
                    begun: seq<Bytes>, i: nat)
    requires QueueOk(vol, visited, queue, starts) && 0 < i < |queue| && ProgressOk(vol, t, queue, begun, i)
    requires Quiet(t, now) && vol.Opened(queue[i].id).None? && CatalogLooked(now, vol, queue[i].id, queue[i].path)
    ensures ProgressOk(vol, now, queue, begun, i + 1)
  {
    hide CatalogLooked, Grew, BegunOk, Nameable;
    LooksStay(t, now, vol, queue, i);
    BegunStep(vol, visited, queue, starts, begun, i);
  }

  lemma LooksStay(a: Trail, b: Trail, vol: Volume, queue: seq<Job>, i: nat)
    requires Grew(a, b) && LookedUpTo(a, vol, queue, i)
    ensures LookedUpTo(b, vol, queue, i)
  {
  }

  lemma BegunStep(vol: Volume, visited: set<Bytes>, queue: seq<Job>, starts: map<Bytes, i64>, begun: seq<Bytes>, i: nat)
    requires QueueOk(vol, visited, queue, starts) && 0 < i < |queue| && BegunOk(vol, queue, begun, i)
    ensures BegunOk(vol, queue, if vol.Opened(queue[i].id).Some? then begun + [queue[i].id] else begun, i + 1)
  {
    hide Nameable;
    var all := begun + [queue[i].id];
    if vol.Opened(queue[i].id).Some? {
      forall a | 0 <= a < |begun|
        ensures begun[a] != queue[i].id
      {
        assert AmongFirst(queue, i, begun[a]);
      }
      assert all[|begun|] == queue[i].id;
    }
  }

  /** The job's catalog is open, and begun if it was not already. */
  ghost predicate ReadyOk(vol: Volume, t: Trail, queue: seq<Job>, begun: seq<Bytes>, i: nat) {
    && Resting(t) && OnlyUpTo(t, queue, i) && DoneUpTo(t, vol, queue, i) && i < |queue|
    && queue[0] == Job(vol.root, ROOT_INODE, []) && vol.Opened(vol.root).Some? && LookedUpTo(t, vol, queue, i + 1)
    && BegunOk(vol, queue, begun, i + 1)
  }

  lemma RootReady(vol: Volume, t: Trail, queue: seq<Job>, begun: seq<Bytes>)
    requires ProgressOk(vol, t, queue, begun, 0)
    ensures ReadyOk(vol, t, queue, begun, 0)
  {
  }

  lemma OthersReady(vol: Volume, t: Trail, ready: Trail, visited: set<Bytes>, queue: seq<Job>, starts: map<Bytes, i64>,
                    begun: seq<Bytes>, i: nat)
    requires QueueOk(vol, visited, queue, starts) && 0 < i < |queue| && ProgressOk(vol, t, queue, begun, i)
    requires Quiet(t, ready) && vol.Opened(queue[i].id).Some? && CatalogLooked(ready, vol, queue[i].id, queue[i].path)
    ensures ReadyOk(vol, ready, queue, begun + [queue[i].id], i)
  {
    hide Grew, BegunOk, Nameable, CatalogLooked;
    LooksStay(t, ready, vol, queue, i);
    BegunStep(vol, visited, queue, starts, begun, i);
  }

  /** The job's catalog is the one begun last, and what was entered before is finished. */
  lemma JobCurrent(vol: Volume, ready: Trail, queue: seq<Job>, began: seq<Bytes>, begun: seq<Bytes>, i: nat,
                   checked: seq<Checked>)
    requires ReadyOk(vol, ready, queue, begun, i) && OrderOk(vol, ready.via.Keys, began, checked) && began != []
    requires begun == if i == 0 then began else began + [queue[i].id]
    ensures OrderOk(vol, ready.via.Keys, begun, checked) && Current(ready.via.Keys, ready.finished, begun, queue[i].id)
  {
    hide OrderOk, OnlyUpTo, DoneUpTo, LookedUpTo;
    if i > 0 {
      assert queue[i].id !in began by {
        forall a | 0 <= a < |began|
          ensures began[a] != queue[i].id
        {
          assert begun[a] == began[a] && begun[|began|] == queue[i].id;
        }
      }
      OneMoreBegun(vol, ready.via.Keys, began, checked, queue[i].id);
    } else {
      assert AmongFirst(queue, 1, begun[|begun| - 1]);
    }
  }

  lemma DescendedStep(vol: Volume, ready: Trail, now: Trail, before: seq<Job>, queue: seq<Job>, begun: seq<Bytes>,
                      i: nat)
    requires ReadyOk(vol, ready, before, begun, i) && before <= queue && Settled(now, vol)
    requires Walked(ready, now, Spot(before[i].id, before[i].ino), [])
    ensures ProgressOk(vol, now, queue, begun, i + 1)
  {
    hide Settled, LookedUpTo, BegunOk, Grew, OnlyUpTo, DoneUpTo, Resting, Walked;
    assert forall m :: 0 <= m <= i ==> queue[m] == before[m];
    LongerQueue(vol, ready, before, queue, begun, i);
    WalkedGrew(ready, now, Spot(before[i].id, before[i].ino));
    LooksStay(ready, now, vol, queue, i + 1);
    NowOnly(vol, ready, now, before, queue, i);
    NowDone(vol, ready, now, before, queue, i);
    NowResting(vol, ready, now, Spot(before[i].id, before[i].ino));
  }

  lemma WalkedGrew(a: Trail, b: Trail, s: Spot)
    requires Walked(a, b, s, [])
    ensures Grew(a, b)
  {
  }

  lemma NowResting(vol: Volume, ready: Trail, now: Trail, s: Spot)
    requires Settled(now, vol) && Resting(ready) && Walked(ready, now, s, [])
    ensures Resting(now)
  {
    hide Settled, Grew;
    FinishedEntered(now, vol);
    forall s | s in now.via
      ensures s in now.finished
    {
      assert s in ready.via ==> s in ready.finished;
    }
  }

  lemma LongerQueue(vol: Volume, t: Trail, before: seq<Job>, queue: seq<Job>, begun: seq<Bytes>, i: nat)
    requires i < |before| && before <= queue && BegunOk(vol, before, begun, i + 1) && LookedUpTo(t, vol, before, i + 1)
    ensures BegunOk(vol, queue, begun, i + 1) && LookedUpTo(t, vol, queue, i + 1)
  {
    hide CatalogLooked;
    assert forall m :: 0 <= m <= i ==> queue[m] == before[m];
    forall a | 0 <= a < |begun|
      ensures AmongFirst(queue, i + 1, begun[a])
    {
      assert AmongFirst(before, i + 1, begun[a]);
      var m :| 0 <= m < i + 1 && before[m].id == begun[a];
      assert queue[m].id == begun[a];
    }
    forall m | 0 <= m < i + 1 && vol.Opened(queue[m].id).Some?
      ensures queue[m].id in begun
    {
      assert queue[m].id == before[m].id;
    }
  }

  lemma NowOnly(vol: Volume, ready: Trail, now: Trail, before: seq<Job>, queue: seq<Job>, i: nat)
    requires OnlyUpTo(ready, before, i) && i < |before| && before <= queue
    requires Walked(ready, now, Spot(before[i].id, before[i].ino), [])
    ensures OnlyUpTo(now, queue, i + 1)
  {
    hide Grew, SamePending, NewlyEntered;
    assert queue[i].id == before[i].id;
    forall s | s in now.via
      ensures exists m :: 0 <= m < i + 1 && queue[m].id == s.id
    {
      if s in ready.via {
        var m :| 0 <= m < i && before[m].id == s.id;
        assert queue[m].id == s.id;
      }
    }
  }

  lemma NowDone(vol: Volume, ready: Trail, now: Trail, before: seq<Job>, queue: seq<Job>, i: nat)
    requires DoneUpTo(ready, vol, before, i) && i < |before| && before <= queue
    requires Walked(ready, now, Spot(before[i].id, before[i].ino), [])
    ensures DoneUpTo(now, vol, queue, i + 1)
  {
    hide SamePending, Through;
    assert queue[i] == before[i];
    forall m | 0 <= m < i && vol.Opened(queue[m].id).Some?
      ensures Spot(queue[m].id, queue[m].ino) in now.via
      ensures now.cycles == 0 ==> now.via[Spot(queue[m].id, queue[m].ino)] == []
    {
      assert queue[m] == before[m];
      assert Spot(before[m].id, before[m].ino) in ready.via;
    }
  }

  lemma AllDone(vol: Volume, t: Trail, visited: set<Bytes>, queue: seq<Job>, starts: map<Bytes, i64>, begun: seq<Bytes>)
    requires QueueOk(vol, visited, queue, starts) && Settled(t, vol) && Anchored(t, vol) && starts == t.starts
    requires ProgressOk(vol, t, queue, begun, |queue|)
    ensures Over(t, vol) && vol.root in starts && starts[vol.root] == ROOT_INODE && BegunOnce(vol, begun)
    ensures AllLooked(t, vol)
  {
    hide Settled, Anchored, Nameable, QueueOk, DoneUpTo, OnlyUpTo, BegunOk, BegunOnce, CatalogLooked, Over;
    AllQueued(vol, visited, queue, starts);
    BegunSoFar(vol, t, queue, begun, |queue|);
    AllOver(vol, t, visited, queue, starts);
    forall id | id in t.starts
      ensures exists path :: CatalogLooked(t, vol, id, path)
    {
      var m :| 0 <= m < |queue| && queue[m].id == id;
      assert CatalogLooked(t, vol, id, queue[m].path);
    }
  }

  lemma AllOver(vol: Volume, t: Trail, visited: set<Bytes>, queue: seq<Job>, starts: map<Bytes, i64>)
    requires QueueOk(vol, visited, queue, starts) && Settled(t, vol) && Anchored(t, vol) && starts == t.starts
    requires Resting(t) && DoneUpTo(t, vol, queue, |queue|) && queue != [] && queue[0] == Job(vol.root, ROOT_INODE, [])
    ensures Over(t, vol) && vol.root in starts && starts[vol.root] == ROOT_INODE
  {
    hide Settled, Anchored, Nameable;
    AllQueued(vol, visited, queue, starts);
    assert queue[0].id in starts;
  }

  lemma QueueIds(vol: Volume, visited: set<Bytes>, queue: seq<Job>, starts: map<Bytes, i64>)
    requires QueueOk(vol, visited, queue, starts)
    ensures visited == starts.Keys
  {
  }
}
