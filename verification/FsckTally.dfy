/** What a walk of fsck counts: inodes once each, by kind, and the files it has checked. */
module FsckTally {
  import opened Bytes
  import opened LittleEndian
  import opened CatalogRecords
  import PackIndex
  import opened FsckVolume
  import opened FsckReport
  import opened FsckTrail

  ghost function TotalLength(cs: seq<Checked>): int {
    if cs == [] then 0 else TotalLength(cs[..|cs| - 1]) + cs[|cs| - 1].node.length
  }

  ghost function InodesOf(cs: seq<Checked>): set<i64> {
    if cs == [] then {} else InodesOf(cs[..|cs| - 1]) + {cs[|cs| - 1].ino}
  }

  lemma OneMoreFile(cs: seq<Checked>, c: Checked)
    ensures TotalLength(cs + [c]) == TotalLength(cs) + c.node.length
    ensures InodesOf(cs + [c]) == InodesOf(cs) + {c.ino}
  {
    assert (cs + [c])[..|cs|] == cs;
  }

  // ---------- Counting ----------

  datatype Tally = Tally(dirs: nat, files: nat, symlinks: nat, bytes: int, seen: set<i64>, dirInodes: set<i64>,
                         linkInodes: set<i64>, fileInodes: set<i64>, specials: set<i64>, checked: seq<Checked>)

  /** No inode is counted twice, and Bytes is the sum over the files counted. */
  ghost predicate TallyOk(t: Tally) {
    && t.dirs == |t.dirInodes| && t.symlinks == |t.linkInodes| && t.files == |t.fileInodes| == |t.checked|
    && t.bytes == TotalLength(t.checked)
    && t.seen == t.dirInodes + t.linkInodes + t.fileInodes + t.specials
    && t.dirInodes !! t.linkInodes !! t.fileInodes !! t.specials
    && t.fileInodes == InodesOf(t.checked)
  }

  lemma OneMoreFirst(a: set<i64>, b: set<i64>, c: set<i64>, d: set<i64>, x: i64)
    requires a !! b !! c !! d && x !in a + b + c + d
    ensures a + {x} !! b !! c !! d && a + {x} + b + c + d == a + b + c + d + {x}
  {
  }

  lemma OneMoreSecond(a: set<i64>, b: set<i64>, c: set<i64>, d: set<i64>, x: i64)
    requires a !! b !! c !! d && x !in a + b + c + d
    ensures a !! b + {x} !! c !! d && a + (b + {x}) + c + d == a + b + c + d + {x}
  {
  }

  lemma OneMoreDir(t: Tally, ino: i64)
    requires TallyOk(t) && ino !in t.seen
    ensures TallyOk(t.(dirs := t.dirs + 1, dirInodes := t.dirInodes + {ino}, seen := t.seen + {ino}))
  {
    hide TotalLength, InodesOf;
    OneMoreFirst(t.dirInodes, t.linkInodes, t.fileInodes, t.specials, ino);
  }

  lemma OneMoreSymlink(t: Tally, ino: i64)
    requires TallyOk(t) && ino !in t.seen
    ensures TallyOk(t.(symlinks := t.symlinks + 1, linkInodes := t.linkInodes + {ino}, seen := t.seen + {ino}))
  {
    hide TotalLength, InodesOf;
    OneMoreSecond(t.dirInodes, t.linkInodes, t.fileInodes, t.specials, ino);
  }

  lemma OneMoreSpecial(t: Tally, ino: i64)
    requires TallyOk(t) && ino !in t.seen
    ensures TallyOk(t.(specials := t.specials + {ino}, seen := t.seen + {ino}))
  {
    hide TotalLength, InodesOf;
  }

  lemma OneMoreChecked(t: Tally, f: Checked)
    requires TallyOk(t) && f.ino !in t.seen
    ensures TallyOk(t.(files := t.files + 1, bytes := t.bytes + f.node.length, fileInodes := t.fileInodes + {f.ino},
                       seen := t.seen + {f.ino}, checked := t.checked + [f]))
  {
    hide TotalLength, InodesOf;
    OneMoreFile(t.checked, f);
  }

  /** Each file counted was reached under an inode of its own. */
  lemma {:induction false} FilesDistinct(cs: seq<Checked>, i: nat, j: nat)
    requires |InodesOf(cs)| == |cs| && i < j < |cs|
    ensures cs[i].ino != cs[j].ino
  {
    var n := |cs| - 1;
    InodesFew(cs[..n]);
    if j < n {
      assert |InodesOf(cs[..n])| == n;
      FilesDistinct(cs[..n], i, j);
    } else {
      InodesIn(cs[..n], i);
    }
  }

  lemma {:induction false} InodesFew(cs: seq<Checked>)
    ensures |InodesOf(cs)| <= |cs|
  {
    if cs != [] {
      InodesFew(cs[..|cs| - 1]);
    }
  }

  lemma {:induction false} InodesIn(cs: seq<Checked>, i: nat)
    requires i < |cs|
    ensures cs[i].ino in InodesOf(cs)
  {
    if i < |cs| - 1 {
      InodesIn(cs[..|cs| - 1], i);
    }
  }

  // ---------- Where each was met ----------

  /** Entry k of the directory at s leads to this inode, whose node in that catalog is n. */
  ghost predicate EntryIs(vol: Volume, s: Spot, k: nat, ino: i64, n: Node) {
    && vol.Opened(s.id).Some? && k < |Entries(vol.Opened(s.id).value, s.ino)|
    && Entries(vol.Opened(s.id).value, s.ino)[k].inode == ino && vol.Opened(s.id).value.stat(ino) == Ok(n)
  }

  /** An entry of one of these directories gives the inode a node that is not a file's. */
  ghost predicate MetOtherwise(vol: Volume, entered: set<Spot>, ino: i64) {
    exists s: Spot, k: nat, n: Node :: s in entered && n.typ != 1 && EntryIs(vol, s, k, ino, n)
  }

  /** An entry of one of these directories gives the inode a node of this type. */
  ghost predicate MetAs(vol: Volume, entered: set<Spot>, ino: i64, typ: u8) {
    exists s: Spot, k: nat, n: Node :: s in entered && n.typ == typ && EntryIs(vol, s, k, ino, n)
  }

  /** Neither a file, a directory nor a symlink. */
  ghost predicate MetAsSpecial(vol: Volume, entered: set<Spot>, ino: i64) {
    exists typ: u8 :: typ != 1 && typ != 2 && typ != 3 && MetAs(vol, entered, ino, typ)
  }

  lemma MetAsOther(vol: Volume, entered: set<Spot>, ino: i64)
    ensures MetAs(vol, entered, ino, 2) || MetAs(vol, entered, ino, 3) || MetAsSpecial(vol, entered, ino) ==>
      MetOtherwise(vol, entered, ino)
  {
    hide EntryIs;
  }

  ghost predicate MetAsFile(vol: Volume, entered: set<Spot>, f: Checked) {
    f.node.typ == 1
    && exists s: Spot, k: nat :: s in entered && s.id == f.id && EntryIs(vol, s, k, f.ino, f.node)
  }

  /**
    Whatever was counted as a directory, a symlink, something special or a file was met as such in an
    entered directory; the root inode was counted as a directory before anything was met.
   */
  ghost predicate AllMet(vol: Volume, entered: set<Spot>, t: Tally) {
    && ROOT_INODE in t.dirInodes
    && (forall ino :: ino in t.dirInodes ==> ino == ROOT_INODE || MetAs(vol, entered, ino, 2))
    && (forall ino :: ino in t.linkInodes ==> MetAs(vol, entered, ino, 3))
    && (forall ino :: ino in t.specials ==> MetAsSpecial(vol, entered, ino))
    && (forall i :: 0 <= i < |t.checked| ==> MetAsFile(vol, entered, t.checked[i]))
  }

  lemma MetStays(vol: Volume, a: set<Spot>, b: set<Spot>, t: Tally)
    requires AllMet(vol, a, t) && a <= b
    ensures AllMet(vol, b, t)
  {
    hide EntryIs;
    forall ino, typ | MetAs(vol, a, ino, typ)
      ensures MetAs(vol, b, ino, typ)
    {
      var s: Spot, k: nat, n: Node :| s in a && n.typ == typ && EntryIs(vol, s, k, ino, n);
    }
    forall ino | MetAsSpecial(vol, a, ino)
      ensures MetAsSpecial(vol, b, ino)
    {
      var typ: u8 :| typ != 1 && typ != 2 && typ != 3 && MetAs(vol, a, ino, typ);
    }
    forall f | MetAsFile(vol, a, f)
      ensures MetAsFile(vol, b, f)
    {
      var s: Spot, k: nat :| s in a && s.id == f.id && EntryIs(vol, s, k, f.ino, f.node);
    }
  }

  lemma OneMoreMet(vol: Volume, entered: set<Spot>, t: Tally, u: Tally, ino: i64)
    requires AllMet(vol, entered, t) && u.checked == t.checked
    requires u.dirInodes == t.dirInodes || (u.dirInodes == t.dirInodes + {ino} && MetAs(vol, entered, ino, 2))
    requires u.linkInodes == t.linkInodes || (u.linkInodes == t.linkInodes + {ino} && MetAs(vol, entered, ino, 3))
    requires u.specials == t.specials || (u.specials == t.specials + {ino} && MetAsSpecial(vol, entered, ino))
    ensures AllMet(vol, entered, u)
  {
    hide MetAs, MetAsSpecial, MetAsFile;
  }

  lemma CountedOtherwise(vol: Volume, entered: set<Spot>, t: Tally, ino: i64)
    requires AllMet(vol, entered, t) && ino in t.dirInodes + t.linkInodes + t.specials && ino != ROOT_INODE
    ensures MetOtherwise(vol, entered, ino)
  {
    hide MetAs, MetAsSpecial, MetAsFile, MetOtherwise;
    MetAsOther(vol, entered, ino);
  }

  lemma OneMoreFileMet(vol: Volume, entered: set<Spot>, t: Tally, u: Tally, f: Checked)
    requires AllMet(vol, entered, t) && MetAsFile(vol, entered, f) && u.checked == t.checked + [f]
    requires u.dirInodes == t.dirInodes && u.linkInodes == t.linkInodes && u.specials == t.specials
    ensures AllMet(vol, entered, u)
  {
    hide MetOtherwise, MetAsFile;
  }

  lemma FirstMet(vol: Volume, t: Tally)
    requires t.dirInodes == {ROOT_INODE} && t.linkInodes == t.specials == {} && t.checked == []
    ensures AllMet(vol, {}, t)
  {
  }

  lemma FirstTally()
    ensures TallyOk(Tally(1, 0, 0, 0, {ROOT_INODE}, {ROOT_INODE}, {}, {}, {}, []))
  {
  }

  // ---------- Files checked ----------

  /** A file's record: its node where it was reached. */
  ghost predicate FileChecked(vol: Volume, f: Checked) {
    vol.Opened(f.id).Some? && vol.Opened(f.id).value.stat(f.ino) == Ok(f.node)
  }

  ghost predicate CheckedSound(vol: Volume, recs: seq<Bytes>, f: Checked)
    requires PackIndex.Wide(recs)
  {
    FileChecked(vol, f) && FileOk(vol, recs, vol.Opened(f.id).value, f.node)
  }

  ghost predicate NamedBy(vol: Volume, f: Checked, id: Bytes) {
    vol.Opened(f.id).Some? && id in FileIds(vol, vol.Opened(f.id).value, f.node)
  }

  /** Every file is checked, and the chunks counted are those the files name and the index holds. */
  ghost predicate AllChecked(vol: Volume, recs: seq<Bytes>, checked: seq<Checked>, named: set<Bytes>, inline: nat)
    requires PackIndex.Wide(recs)
  {
    && inline == InlineFiles(vol, checked)
    && (forall i :: 0 <= i < |checked| ==> FileChecked(vol, checked[i]))
    && (forall id :: id in named <==> PackIndex.Indexed(recs, id) && AnyNames(vol, checked, id))
  }

  /** How many of these files have inline data. */
  ghost function InlineFiles(vol: Volume, checked: seq<Checked>): nat {
    if checked == [] then 0
    else InlineFiles(vol, checked[..|checked| - 1]) + (if IsInline(vol, checked[|checked| - 1]) then 1 else 0)
  }

  ghost predicate IsInline(vol: Volume, f: Checked) {
    vol.Opened(f.id).Some? && FileInline(vol, vol.Opened(f.id).value, f.node)
  }

  ghost predicate AnyNames(vol: Volume, checked: seq<Checked>, id: Bytes) {
    exists i :: 0 <= i < |checked| && NamedBy(vol, checked[i], id)
  }

  lemma OneMoreNames(vol: Volume, checked: seq<Checked>, f: Checked, id: Bytes)
    ensures AnyNames(vol, checked + [f], id) <==> AnyNames(vol, checked, id) || NamedBy(vol, f, id)
  {
    hide NamedBy;
    var all := checked + [f];
    if i :| 0 <= i < |all| && NamedBy(vol, all[i], id) && i < |checked| {
      assert checked[i] == all[i];
    }
    if i :| 0 <= i < |checked| && NamedBy(vol, checked[i], id) {
      assert all[i] == checked[i];
    }
    assert all[|checked|] == f;
  }

  lemma FileJoins(vol: Volume, recs: seq<Bytes>, checked: seq<Checked>, named: set<Bytes>, named': set<Bytes>,
                  inline: nat, inline': nat, f: Checked)
    requires PackIndex.Wide(recs) && AllChecked(vol, recs, checked, named, inline) && FileChecked(vol, f)
    requires inline' == inline + if IsInline(vol, f) then 1 else 0
    requires forall id :: id in named' <==> id in named || (NamedBy(vol, f, id) && PackIndex.Indexed(recs, id))
    ensures AllChecked(vol, recs, checked + [f], named', inline')
  {
    hide AnyNames, NamedBy, PackIndex.Indexed, IsInline;
    assert (checked + [f])[..|checked|] == checked;
    forall id
      ensures id in named' <==> PackIndex.Indexed(recs, id) && AnyNames(vol, checked + [f], id)
    {
      OneMoreNames(vol, checked, f, id);
    }
  }

  lemma NothingChecked(vol: Volume, recs: seq<Bytes>)
    requires PackIndex.Wide(recs)
    ensures AllChecked(vol, recs, [], {}, 0)
  {
  }
}
