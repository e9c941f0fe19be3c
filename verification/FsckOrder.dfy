/** Which of a file's rows fsck checks: the one in the first catalog begun that lists it. */
module FsckOrder {
  import opened Bytes
  import opened LittleEndian
  import opened CatalogRecords
  import opened StaticQueries
  import opened FsckVolume
  import opened FsckReport
  import opened FsckTrail
  import opened FsckTally

  /** An entry of the directory at s leads to this inode, and its catalog has a node for it. */
  ghost predicate Lists(vol: Volume, s: Spot, ino: i64) {
    exists k: nat, n: Node :: EntryIs(vol, s, k, ino, n)
  }

  ghost predicate BegunBefore(begun: seq<Bytes>, a: Bytes, b: Bytes) {
    exists i, j :: 0 <= i < j < |begun| && begun[i] == a && begun[j] == b
  }

  /** Of the catalogs with an entry for a file in a directory entered, it was checked in the first begun. */
  ghost predicate CheckedFirst(vol: Volume, entered: set<Spot>, begun: seq<Bytes>, checked: seq<Checked>) {
    forall f: Checked, s: Spot :: f in checked && s in entered && s.id != f.id && Lists(vol, s, f.ino) ==>
      BegunBefore(begun, f.id, s.id)
  }

  /** No catalog is begun twice, and only in those begun was anything entered or checked. */
  ghost predicate OrderOk(vol: Volume, entered: set<Spot>, begun: seq<Bytes>, checked: seq<Checked>) {
    && (forall i, j :: 0 <= i < j < |begun| ==> begun[i] != begun[j])
    && (forall s :: s in entered ==> s.id in begun) && (forall f :: f in checked ==> f.id in begun)
    && CheckedFirst(vol, entered, begun, checked)
  }

  /** The catalog begun last is the one being walked: of the others nothing is unfinished. */
  ghost predicate Current(entered: set<Spot>, finished: set<Spot>, begun: seq<Bytes>, id: Bytes) {
    begun != [] && begun[|begun| - 1] == id && forall s :: s in entered && s.id != id ==> s in finished
  }

  lemma OneMoreBegun(vol: Volume, entered: set<Spot>, begun: seq<Bytes>, checked: seq<Checked>, id: Bytes)
    requires OrderOk(vol, entered, begun, checked) && id !in begun
    ensures OrderOk(vol, entered, begun + [id], checked)
  {
    hide Lists;
    forall f: Checked, s: Spot | f in checked && s in entered && s.id != f.id && Lists(vol, s, f.ino)
      ensures BegunBefore(begun + [id], f.id, s.id)
    {
      var i, j :| 0 <= i < j < |begun| && begun[i] == f.id && begun[j] == s.id;
      assert (begun + [id])[i] == f.id && (begun + [id])[j] == s.id;
    }
  }

  /** Another directory of the last catalog comes after every file checked in an earlier one. */
  lemma OneMoreEntered(vol: Volume, entered: set<Spot>, finished: set<Spot>, begun: seq<Bytes>, checked: seq<Checked>,
                       s: Spot)
    requires OrderOk(vol, entered, begun, checked) && Current(entered, finished, begun, s.id)
    ensures OrderOk(vol, entered + {s}, begun, checked) && Current(entered + {s}, finished, begun, s.id)
  {
    hide Lists;
    forall f: Checked | f in checked && s.id != f.id
      ensures BegunBefore(begun, f.id, s.id)
    {
      var i :| 0 <= i < |begun| && begun[i] == f.id;
      assert i < |begun| - 1;
    }
  }

  /** A file new to the walk is listed by no directory of an earlier catalog: those are finished. */
  lemma OneMoreInOrder(vol: Volume, t: Trail, begun: seq<Bytes>, checked: seq<Checked>, f: Checked)
    requires OrderOk(vol, t.via.Keys, begun, checked) && Current(t.via.Keys, t.finished, begun, f.id)
    requires Settled(t, vol) && f.ino !in t.seen
    ensures OrderOk(vol, t.via.Keys, begun, checked + [f])
  {
    hide Settled, Lists, BegunBefore;
    forall s | s in t.finished
      ensures !Lists(vol, s, f.ino)
    {
      NotListed(vol, t, s, f.ino);
    }
  }

  lemma NotListed(vol: Volume, t: Trail, s: Spot, ino: i64)
    requires Settled(t, vol) && s in t.finished && ino !in t.seen
    ensures !Lists(vol, s, ino)
  {
    hide TurnOf, Entries, Locators;
    assert SpotDone(t, vol, s);
    forall k: nat, n: Node
      ensures !EntryIs(vol, s, k, ino, n)
    {
      if k < |Entries(vol.Opened(s.id).value, s.ino)| {
        assert EntryDone(t, vol.Opened(s.id).value, s, k);
      }
    }
  }

  lemma OneMoreFinished(entered: set<Spot>, finished: set<Spot>, begun: seq<Bytes>, s: Spot)
    requires Current(entered, finished, begun, s.id)
    ensures Current(entered, finished + {s}, begun, s.id)
  {
  }

  /** So a file with an entry in a directory entered of the catalog begun first was checked there. */
  lemma CheckedInFirst(vol: Volume, entered: set<Spot>, begun: seq<Bytes>, checked: seq<Checked>, f: Checked, s: Spot)
    requires OrderOk(vol, entered, begun, checked) && begun != [] && begun[0] == s.id
    requires f in checked && s in entered && Lists(vol, s, f.ino)
    ensures f.id == s.id
  {
    hide Lists;
    NoneBeforeFirst(begun, f.id);
  }

  lemma NoneBeforeFirst(begun: seq<Bytes>, id: Bytes)
    requires begun != [] && forall i, j :: 0 <= i < j < |begun| ==> begun[i] != begun[j]
    ensures !BegunBefore(begun, id, begun[0])
  {
  }
}
