/**
  What fsck reports of each thing it looks at, in the order it looks: the findings of a shard, a
  catalog, a directory, an entry, a file.
 */
module FsckReport {
  import opened Bytes
  import opened LittleEndian
  import opened CatalogRecords
  import opened StaticQueries
  import opened FsckVolume
  import PackIndex

  datatype Kind = MissingCatalog | BadCatalog | MissingShard | BadShard | WrongIdentity | DanglingDirent
                | TypeMismatch | Transition | Cycle | ShardRouting | ChunkRefs | ContentRows | MissingChunk

  /** A namespace path, or a shard by its range. */
  datatype Where = InTree(path: seq<Bytes>) | InShard(first: u64, last: u64)

  datatype Problem = Problem(kind: Kind, at: Where)

  ghost function Unless(fine: bool, kind: Kind, at: Where): seq<Problem> {
    if fine then [] else [Problem(kind, at)]
  }

  // ---------- Objects and shards ----------

  /** Fetching and opening one object: a wrong hash is reported, and so is what keeps it from opening. */
  ghost function ObjectFindings(vol: Volume, id: Bytes, at: Where, missing: Kind, bad: Kind): seq<Problem> {
    if id !in vol.objects then [Problem(missing, at)]
    else match vol.objects[id]
      case Unusable(mismatch) => Unless(!mismatch, WrongIdentity, at) + [Problem(bad, at)]
      case Usable(_, honest) => Unless(honest, WrongIdentity, at)
  }

  /** No shard before k has its identity: an object is fetched once however many shards name it. */
  ghost predicate FirstNaming(vol: Volume, k: nat)
    requires k < |vol.shards|
  {
    forall j :: 0 <= j < k ==> vol.shards[j].identity != vol.shards[k].identity
  }

  ghost function ShardFindings(vol: Volume, k: nat): seq<Problem>
    requires k < |vol.shards|
  {
    var sh := vol.shards[k];
    var at := InShard(sh.first, sh.last);
    Unless(sh.first <= sh.last, ShardRouting, at)
    + Unless(k == 0 || vol.shards[k - 1].last < sh.first, ShardRouting, at)
    + (if FirstNaming(vol, k) then ObjectFindings(vol, sh.identity, at, MissingShard, BadShard) else [])
  }

  /** Those of the first n shards. */
  ghost function ShardsFindings(vol: Volume, n: nat): seq<Problem>
    requires n <= |vol.shards|
  {
    if n == 0 then [] else ShardsFindings(vol, n - 1) + ShardFindings(vol, n - 1)
  }

  /** Shard k opens, honestly, and its range lies in order after the one before. */
  ghost predicate ShardOk(vol: Volume, k: nat)
    requires k < |vol.shards|
  {
    && vol.shards[k].first <= vol.shards[k].last && vol.Honest(vol.shards[k].identity)
    && (k > 0 ==> vol.shards[k - 1].last < vol.shards[k].first)
  }

  ghost predicate ShardsOk(vol: Volume) {
    forall k :: 0 <= k < |vol.shards| ==> ShardOk(vol, k)
  }

  // ---------- Files ----------

  ghost function ChunkFindings(recs: seq<Bytes>, id: Bytes, clen: i64, at: Where): seq<Problem>
    requires PackIndex.Wide(recs)
  {
    if !PackIndex.Indexed(recs, id) then [Problem(MissingChunk, at)]
    else Unless(PackIndex.Placed(recs, id, clen), ChunkRefs, at)
  }

  ghost function ExtentFindings(recs: seq<Bytes>, e: FileExtent, at: Where): seq<Problem>
    requires PackIndex.Wide(recs)
  {
    if !Sized(e) then [Problem(ChunkRefs, at)]
    else match e.identity
      case None => []
      case Some(id) => if |id| != ID_LEN then [Problem(ChunkRefs, at)] else ChunkFindings(recs, id, e.clen, at)
  }

  ghost function ExtentsFindings(recs: seq<Bytes>, es: seq<FileExtent>, at: Where): seq<Problem>
    requires PackIndex.Wide(recs)
  {
    if es == [] then []
    else ExtentsFindings(recs, es[..|es| - 1], at) + ExtentFindings(recs, es[|es| - 1], at)
  }

  ghost function ContentFindings(recs: seq<Bytes>, content: Reader, n: Node, at: Where): seq<Problem>
    requires PackIndex.Wide(recs)
  {
    match content.inline(n.inode)
    case Err(_) => [Problem(ContentRows, at)]
    case Ok(Some(data)) => Unless(|data| == n.length, ContentRows, at)
    case Ok(None) => match content.chunks(n.inode)
      case Err(_) => [Problem(ChunkRefs, at)]
      case Ok(None) => Unless(n.length <= 0, ContentRows, at)
      case Ok(Some(es)) => ExtentsFindings(recs, es, at)
  }

  /** A shard that does not open has findings of its own. */
  ghost function FileFindings(vol: Volume, recs: seq<Bytes>, r: Reader, n: Node, at: Where): seq<Problem>
    requires PackIndex.Wide(recs)
  {
    match Route(vol, r, n)
    case NoShard => [Problem(ShardRouting, at)]
    case ShardUnusable => []
    case NoRecord => [Problem(ShardRouting, at)]
    case Content(content, length) => Unless(length == n.length, ShardRouting, at) + ContentFindings(recs, content, n, at)
  }

  // ---------- Everything looked at ----------

  /** A directory inode within one catalog. */
  datatype Spot = Spot(id: Bytes, ino: i64)

  /** A file as first reached: in which catalog, under which inode, with which node. */
  datatype Checked = Checked(id: Bytes, ino: i64, node: Node)

  /**
    One look at something: at the root object and the shards, the root's node, a catalog's object and
    its order, a directory's listing, a locator, an entry, its locator, its target, at a directory
    that was there already, and at a file.
   */
  datatype Look = Opening | RootNode | Fetching(id: Bytes, path: seq<Bytes>) | Ordering(id: Bytes, path: seq<Bytes>)
                | Listing(s: Spot, path: seq<Bytes>) | Locating(s: Spot, k: nat, path: seq<Bytes>)
                | Naming(s: Spot, k: nat, path: seq<Bytes>) | Crossing(s: Spot, k: nat, path: seq<Bytes>)
                | Linking(s: Spot, k: nat, path: seq<Bytes>) | Returning(s: Spot, path: seq<Bytes>)
                | Reading(f: Checked, path: seq<Bytes>)

  ghost function NodeFindings(r: Reader, d: Dirent, at: Where): seq<Problem> {
    match r.stat(d.inode)
    case Err(NotExist) => [Problem(DanglingDirent, at)]
    case Err(_) => [Problem(BadCatalog, at)]
    case Ok(n) => Unless(n.typ == d.typ, TypeMismatch, at)
  }

  /** What one look reports. */
  ghost function Findings(vol: Volume, recs: seq<Bytes>, look: Look): seq<Problem>
    requires PackIndex.Wide(recs)
  {
    match look
    case Opening => ObjectFindings(vol, vol.root, InTree([]), MissingCatalog, BadCatalog) + ShardsFindings(vol, |vol.shards|)
    case Fetching(id, path) => ObjectFindings(vol, id, InTree(path), MissingCatalog, BadCatalog)
    case RootNode => (match vol.Opened(vol.root) case None => [] case Some(r) =>
                        Unless(r.stat(ROOT_INODE).Ok?, DanglingDirent, InTree([])))
    case Ordering(id, path) => (match vol.Opened(id) case None => [] case Some(r) =>
                                  Unless(r.ordered, BadCatalog, InTree(path)))
    case Returning(s, path) => [Problem(Cycle, InTree(path))]
    case Reading(f, path) => (match vol.Opened(f.id) case None => [] case Some(r) =>
                                FileFindings(vol, recs, r, f.node, InTree(path)))
    case Listing(s, path) => (match vol.Opened(s.id) case None => [] case Some(r) =>
                                Unless(r.readdir(s.ino).Ok?, BadCatalog, InTree(path)))
    case _ => (match vol.Opened(look.s.id) case None => [] case Some(r) => EntryFindings(r, look))
  }

  /** Of a locator or an entry. */
  ghost function EntryFindings(r: Reader, look: Look): seq<Problem>
    requires look.Locating? || look.Naming? || look.Crossing? || look.Linking?
  {
    var ds, ns := Entries(r, look.s.ino), Locators(r, look.s.ino);
    if look.Locating? then
      if look.k >= |ns| then [] else Unless(HasDirent(ds, ns[look.k]), Transition, InTree(look.path + [ns[look.k].name]))
    else if look.k >= |ds| then []
    else
      var d, at := ds[look.k], InTree(look.path + [ds[look.k].name]);
      match look
      case Naming(_, _, _) => NodeFindings(r, d, at)
      case Crossing(_, _, _) => Unless(!TurnOf(r, ns, d).BadLocator?, Transition, at)
      case Linking(_, _, _) => Unless(r.symlink(d.inode).Ok?, ContentRows, at)
  }

  /** What a run of looks reports, in order. */
  ghost function Tale(vol: Volume, recs: seq<Bytes>, looks: seq<Look>): seq<Problem>
    requires PackIndex.Wide(recs)
  {
    if looks == [] then [] else Tale(vol, recs, looks[..|looks| - 1]) + Findings(vol, recs, looks[|looks| - 1])
  }

  lemma OneMoreLook(vol: Volume, recs: seq<Bytes>, looks: seq<Look>, look: Look)
    requires PackIndex.Wide(recs)
    ensures Tale(vol, recs, looks + [look]) == Tale(vol, recs, looks) + Findings(vol, recs, look)
  {
    hide Findings;
    assert (looks + [look])[..|looks|] == looks;
  }

  /** A finding is some look's, and what a look finds is reported. */
  lemma {:induction false} Told(vol: Volume, recs: seq<Bytes>, looks: seq<Look>, p: Problem)
    requires PackIndex.Wide(recs)
    ensures p in Tale(vol, recs, looks) <==> exists i :: 0 <= i < |looks| && p in Findings(vol, recs, looks[i])
  {
    hide Findings;
    if looks != [] {
      var n := |looks| - 1;
      Told(vol, recs, looks[..n], p);
      if i :| 0 <= i < n && p in Findings(vol, recs, looks[i]) {
        assert looks[..n][i] == looks[i];
      }
      if i :| 0 <= i < n && p in Findings(vol, recs, looks[..n][i]) {
        assert looks[..n][i] == looks[i];
      }
    }
  }

  lemma {:induction false} Silent(vol: Volume, recs: seq<Bytes>, looks: seq<Look>)
    requires PackIndex.Wide(recs)
    ensures Tale(vol, recs, looks) == [] <==> forall look :: look in looks ==> Findings(vol, recs, look) == []
  {
    hide Findings;
    if looks != [] {
      var n := |looks| - 1;
      Silent(vol, recs, looks[..n]);
      assert forall look :: look in looks <==> look in looks[..n] || look == looks[n];
    }
  }

  ghost function Returns(looks: seq<Look>): nat {
    if looks == [] then 0 else Returns(looks[..|looks| - 1]) + (if looks[|looks| - 1].Returning? then 1 else 0)
  }

  lemma OneMoreReturn(looks: seq<Look>, look: Look)
    ensures Returns(looks + [look]) == Returns(looks) + (if look.Returning? then 1 else 0)
  {
    assert (looks + [look])[..|looks|] == looks;
  }

  lemma {:induction false} NoReturns(looks: seq<Look>)
    ensures Returns(looks) == 0 <==> forall look :: look in looks ==> !look.Returning?
  {
    if looks != [] {
      var n := |looks| - 1;
      NoReturns(looks[..n]);
      assert forall look :: look in looks <==> look in looks[..n] || look == looks[n];
    }
  }

  // ---------- No findings ----------

  lemma {:induction false} ExtentsSilent(recs: seq<Bytes>, es: seq<FileExtent>, at: Where)
    requires PackIndex.Wide(recs)
    ensures ExtentsFindings(recs, es, at) == [] <==> ExtentsOk(recs, es)
  {
    hide PackIndex.Indexed, PackIndex.Placed;
    if es != [] {
      var n := |es| - 1;
      ExtentsSilent(recs, es[..n], at);
      ExtentSilent(recs, es[n], at);
      assert forall i :: 0 <= i < n ==> es[..n][i] == es[i];
    }
  }

  lemma ExtentSilent(recs: seq<Bytes>, e: FileExtent, at: Where)
    requires PackIndex.Wide(recs)
    ensures ExtentFindings(recs, e, at) == [] <==> ExtentOk(recs, e)
  {
    if e.identity.Some? {
      PlacedIndexed(recs, e.identity.value, e.clen);
    }
  }

  lemma PlacedIndexed(recs: seq<Bytes>, id: Bytes, clen: i64)
    requires PackIndex.Wide(recs)
    ensures PackIndex.Placed(recs, id, clen) ==> PackIndex.Indexed(recs, id)
  {
  }

  lemma ContentSilent(recs: seq<Bytes>, content: Reader, n: Node, at: Where)
    requires PackIndex.Wide(recs)
    ensures ContentFindings(recs, content, n, at) == [] <==> ContentOk(recs, content, n)
  {
    hide ExtentsOk, ExtentsFindings;
    if content.inline(n.inode) == Ok(None) && content.chunks(n.inode).Ok? && content.chunks(n.inode).value.Some? {
      ExtentsSilent(recs, content.chunks(n.inode).value.value, at);
    }
  }

  /** A file without a finding is sound, if the shard it routes to opens. */
  lemma FileSilent(vol: Volume, recs: seq<Bytes>, r: Reader, n: Node, at: Where)
    requires PackIndex.Wide(recs)
    ensures FileOk(vol, recs, r, n) <==> FileFindings(vol, recs, r, n, at) == [] && !Route(vol, r, n).ShardUnusable?
  {
    hide ContentOk, ContentFindings, ShardFor;
    var route := Route(vol, r, n);
    if route.Content? {
      ContentSilent(recs, route.reader, n, at);
    }
  }

  lemma ObjectSilent(vol: Volume, id: Bytes, at: Where, missing: Kind, bad: Kind)
    ensures ObjectFindings(vol, id, at, missing, bad) == [] <==> vol.Honest(id)
  {
  }

  lemma {:induction false} ShardsSilent(vol: Volume, n: nat)
    requires n <= |vol.shards|
    ensures ShardsFindings(vol, n) == [] <==> forall k :: 0 <= k < n ==> ShardOk(vol, k)
  {
    hide ShardFindings, ShardOk;
    if n > 0 {
      ShardsSilent(vol, n - 1);
      ShardSilent(vol, n - 1);
      if forall k :: 0 <= k < n - 1 ==> ShardOk(vol, k) {
        EarlierHonest(vol, n - 1);
      }
    }
  }

  lemma ShardSilent(vol: Volume, k: nat)
    requires k < |vol.shards|
    ensures ShardFindings(vol, k) == [] <==> ShardOk(vol, k) || (!FirstNaming(vol, k) && InOrder(vol, k))
  {
    ObjectSilent(vol, vol.shards[k].identity, InShard(vol.shards[k].first, vol.shards[k].last), MissingShard, BadShard);
    hide ObjectFindings, Volume.Honest;
  }

  ghost predicate InOrder(vol: Volume, k: nat)
    requires k < |vol.shards|
  {
    vol.shards[k].first <= vol.shards[k].last && (k > 0 ==> vol.shards[k - 1].last < vol.shards[k].first)
  }

  /** A shard whose object an earlier one names is as honest as that one. */
  lemma EarlierHonest(vol: Volume, k: nat)
    requires k < |vol.shards| && forall j :: 0 <= j < k ==> ShardOk(vol, j)
    ensures !FirstNaming(vol, k) && InOrder(vol, k) ==> ShardOk(vol, k)
  {
    hide Volume.Honest;
    if !FirstNaming(vol, k) {
      var j :| 0 <= j < k && vol.shards[j].identity == vol.shards[k].identity;
      assert ShardOk(vol, j);
    }
  }

  lemma OpeningFinds(vol: Volume, recs: seq<Bytes>)
    requires PackIndex.Wide(recs)
    ensures Findings(vol, recs, Opening) == [] <==> vol.Honest(vol.root) && ShardsOk(vol)
  {
    hide ObjectFindings, ShardsFindings, ShardOk, Volume.Honest;
    ObjectSilent(vol, vol.root, InTree([]), MissingCatalog, BadCatalog);
    ShardsSilent(vol, |vol.shards|);
  }

  lemma CatalogFinds(vol: Volume, recs: seq<Bytes>, id: Bytes, path: seq<Bytes>)
    requires PackIndex.Wide(recs)
    ensures Findings(vol, recs, Fetching(id, path)) == [] <==> vol.Honest(id)
    ensures Findings(vol, recs, Ordering(id, path)) == [] <==> vol.Opened(id).None? || vol.Opened(id).value.ordered
    ensures Findings(vol, recs, RootNode) == [] <==>
      vol.Opened(vol.root).None? || vol.Opened(vol.root).value.stat(ROOT_INODE).Ok?
  {
    hide ObjectFindings, Volume.Honest;
    ObjectSilent(vol, id, InTree(path), MissingCatalog, BadCatalog);
  }

  /** A directory of which no look finds anything is sound. */
  lemma DirSilent(vol: Volume, recs: seq<Bytes>, s: Spot, path: seq<Bytes>)
    requires PackIndex.Wide(recs) && vol.Opened(s.id).Some?
    ensures var r := vol.Opened(s.id).value;
      DirOk(r, s.ino) <==>
        && Findings(vol, recs, Listing(s, path)) == []
        && (forall k: nat :: k < |Locators(r, s.ino)| ==> Findings(vol, recs, Locating(s, k, path)) == [])
        && forall k: nat :: k < |Entries(r, s.ino)| ==> EntrySilent(vol, recs, s, k, path)
  {
    hide EntryOk, HasDirent, EntrySilent, Entries, Locators;
    var r := vol.Opened(s.id).value;
    forall k: nat | k < |Locators(r, s.ino)|
      ensures Findings(vol, recs, Locating(s, k, path)) == [] <==> HasDirent(Entries(r, s.ino), Locators(r, s.ino)[k])
    {
    }
    forall k: nat | k < |Entries(r, s.ino)|
      ensures EntrySilent(vol, recs, s, k, path) <==> EntryOk(r, Locators(r, s.ino), Entries(r, s.ino)[k])
    {
      EntryIsSilent(vol, recs, s, k, path);
    }
  }

  /** The looks an entry calls for find nothing. */
  ghost predicate EntrySilent(vol: Volume, recs: seq<Bytes>, s: Spot, k: nat, path: seq<Bytes>)
    requires PackIndex.Wide(recs) && vol.Opened(s.id).Some? && k < |Entries(vol.Opened(s.id).value, s.ino)|
  {
    && Findings(vol, recs, Naming(s, k, path)) == [] && Findings(vol, recs, Crossing(s, k, path)) == []
    && (IsLink(vol.Opened(s.id).value, s.ino, k) ==> Findings(vol, recs, Linking(s, k, path)) == [])
  }

  ghost predicate IsLink(r: Reader, ino: i64, k: nat)
    requires k < |Entries(r, ino)|
  {
    r.stat(Entries(r, ino)[k].inode).Ok? && r.stat(Entries(r, ino)[k].inode).value.typ == TYPE_SYMLINK
  }

  lemma EntryIsSilent(vol: Volume, recs: seq<Bytes>, s: Spot, k: nat, path: seq<Bytes>)
    requires PackIndex.Wide(recs) && vol.Opened(s.id).Some? && k < |Entries(vol.Opened(s.id).value, s.ino)|
    ensures var r := vol.Opened(s.id).value;
      EntrySilent(vol, recs, s, k, path) <==> EntryOk(r, Locators(r, s.ino), Entries(r, s.ino)[k])
  {
    hide Entries, Locators, TurnOf;
  }
}
