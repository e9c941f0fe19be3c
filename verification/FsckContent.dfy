/** fsck's checker: findings, shards and file contents.  The walk itself is in FsckWalk. */
module FsckContent {
  import opened Bytes
  import opened LittleEndian
  import opened CatalogRecords
  import opened StaticQueries
  import opened BitMarks
  import opened PackIndex
  import opened FsckVolume
  import opened FsckReport

  class Contents {
    const vol: Volume
    const index: Index
    var problems: seq<Problem>
    var shards: map<Bytes, Option<Reader>>
    var shardCount: nat
    var chunks: nat
    var inlineFiles: nat
    /** Nil until the first chunk resolves. */
    var seen: seq<nat>
    /** The identities counted so far. */
    ghost var named: set<Bytes>

    constructor (vol: Volume, index: Index)
      requires index.Valid()
      ensures Valid() && this.vol == vol && this.index == index && problems == [] && named == {} && chunks == 0
      ensures shards == map[] && shardCount == inlineFiles == 0
    {
      this.vol := vol;
      this.index := index;
      problems := [];
      shards := map[];
      shardCount := 0;
      chunks := 0;
      inlineFiles := 0;
      seen := [];
      named := {};
    }

    ghost predicate Valid()
      reads `shards, `chunks, `seen, `named, index, index.table
    {
      index.Valid() && CacheOk() && MarksOk()
    }

    ghost function Recs(): seq<Bytes>
      reads index, index.table
    {
      index.Recs()
    }

    ghost predicate Clean()
      reads `problems
    {
      problems == []
    }

    /** The cache answers as opening would. */
    ghost predicate CacheOk()
      reads `shards
    {
      forall id :: id in shards ==> shards[id] == vol.Opened(id)
    }

    /** Every shard has been opened, or has failed to. */
    ghost predicate Cached()
      reads `shards
    {
      forall k :: 0 <= k < |vol.shards| ==> vol.shards[k].identity in shards
    }

    /** The bits are those of the first index position of each identity counted. */
    ghost predicate MarksOk()
      requires index.Valid()
      reads `chunks, `seen, `named, index, index.table
    {
      && chunks == |named| && (forall id :: id in named ==> Indexed(Recs(), id))
      && (seen == [] ==> named == {})
      && (seen != [] ==> Words(seen) && MarksFor(Recs(), named, seen))
    }

    method Report(kind: Kind, at: Where)
      modifies `problems
      ensures problems == old(problems) + [Problem(kind, at)]
    {
      problems := problems + [Problem(kind, at)];
    }

    /** Fetches and opens one object, reporting what stands in the way; dishonest bytes still open. */
    method OpenObject(id: Bytes, at: Where, missing: Kind, bad: Kind) returns (r: Option<Reader>)
      modifies `problems
      ensures r == vol.Opened(id) && problems == old(problems) + ObjectFindings(vol, id, at, missing, bad)
    {
      if id !in vol.objects {
        Report(missing, at);
        return None;
      }
      match vol.objects[id]
      case Unusable(mismatch) =>
        if mismatch {
          Report(WrongIdentity, at);
        }
        Report(bad, at);
        return None;
      case Usable(reader, honest) =>
        if !honest {
          Report(WrongIdentity, at);
        }
        return Some(reader);
    }

    /** A shard is fetched, and its failure reported, once. */
    method OpenShard(id: Bytes, at: Where) returns (r: Option<Reader>)
      requires CacheOk()
      modifies `problems, `shards
      ensures CacheOk() && r == vol.Opened(id) && shards.Keys == old(shards.Keys) + {id}
      ensures id in old(shards) ==> shards == old(shards) && problems == old(problems)
      ensures id !in old(shards) ==> problems == old(problems) + ObjectFindings(vol, id, at, MissingShard, BadShard)
    {
      if id in shards {
        return shards[id];
      }
      r := OpenObject(id, at, MissingShard, BadShard);
      shards := shards[id := r];
    }

    /** Every shard the generation routes to is opened, reached or not, and the ranges must be in order. */
    method CheckShards()
      requires shards == map[]
      modifies `problems, `shards, `shardCount
      ensures CacheOk() && Cached() && problems == old(problems) + ShardsFindings(vol, |vol.shards|)
      ensures shardCount == old(shardCount) + ShardsOpen(vol, |vol.shards|)
    {
      hide ShardFindings;
      var prevLast: u64 := 0;
      for i := 0 to |vol.shards|
        invariant CacheOk() && CachedUpTo(i) && problems == old(problems) + ShardsFindings(vol, i)
        invariant prevLast == if i == 0 then 0 else vol.shards[i - 1].last
        invariant shardCount == old(shardCount) + ShardsOpen(vol, i)
      {
        CheckShard(i, prevLast);
        prevLast := vol.shards[i].last;
      }
    }

    ghost predicate CachedUpTo(n: nat)
      requires n <= |vol.shards|
      reads `shards
    {
      forall id :: id in shards <==> exists k :: 0 <= k < n && vol.shards[k].identity == id
    }

    /** One shard, against where the one before it ends. */
    method CheckShard(i: nat, prevLast: u64)
      requires CacheOk() && i < |vol.shards| && prevLast == if i == 0 then 0 else vol.shards[i - 1].last
      requires CachedUpTo(i)
      modifies `problems, `shards, `shardCount
      ensures CacheOk() && CachedUpTo(i + 1) && problems == old(problems) + ShardFindings(vol, i)
      ensures shardCount == old(shardCount) + if vol.Opened(vol.shards[i].identity).Some? then 1 else 0
    {
      hide Contents.CacheOk, ObjectFindings;
      var sh := vol.shards[i];
      var at := InShard(sh.first, sh.last);
      if sh.first > sh.last {
        Report(ShardRouting, at);
      }
      if i > 0 && sh.first <= prevLast {
        Report(ShardRouting, at);
      }
      var r := OpenShard(sh.identity, at);
      if r.Some? {
        shardCount := shardCount + 1;
      }
    }

    /** Whether the identity first placed at this position was counted before; it is now. */
    method SeenChunk(at: nat, ghost id: Bytes) returns (already: bool)
      requires index.Valid() && MarksOk() && FirstOf(Recs(), id, at)
      modifies `seen
      ensures already <==> id in named
      ensures seen != [] && Words(seen) && MarksFor(Recs(), named + {id}, seen)
    {
      hide MarksFor, Marked, Mark, Unmarked, Words, FirstOf;
      ghost var recs := Recs();
      if seen == [] {
        seen := Unmarked(index.table.n);
        NoneMarked(recs);
      }
      FirstNamed(recs, named, seen, id, at);
      if Marked(seen, at) {
        AlreadyMarked(recs, named, seen, id);
        return true;
      }
      WordsKept(seen, at);
      MarkedToo(recs, named, seen, id, at);
      seen := Mark(seen, at);
      return false;
    }

    /** Resolves one chunk; a chunk found is counted once however many files name it. */
    method CheckChunkRef(id: Bytes, clen: i64, path: seq<Bytes>)
      requires Valid()
      modifies `problems, `chunks, `seen, `named
      ensures Valid() && problems == old(problems) + ChunkFindings(Recs(), id, clen, InTree(path))
      ensures named == old(named) + (if Indexed(Recs(), id) then {id} else {})
    {
      hide Contents.MarksOk, Contents.CacheOk, FirstOf;
      var loc, at, ok := index.Locate(id, clen);
      if !ok {
        Report(MissingChunk, InTree(path));
        return;
      }
      if loc.length != clen {
        Report(ChunkRefs, InTree(path));
      }
      CountChunk(id, at);
    }

    /** Counts an identity unless its mark says it was counted. */
    method CountChunk(ghost id: Bytes, at: nat)
      requires index.Valid() && MarksOk() && FirstOf(Recs(), id, at) && Indexed(Recs(), id)
      modifies `chunks, `seen, `named
      ensures MarksOk() && named == old(named) + {id}
    {
      hide MarksFor, FirstOf, Words, Indexed;
      var already := SeenChunk(at, id);
      named := named + {id};
      if already {
        return;
      }
      chunks := chunks + 1;
    }

    method CheckExtents(es: seq<FileExtent>, path: seq<Bytes>)
      requires Valid()
      modifies `problems, `chunks, `seen, `named
      ensures Valid() && problems == old(problems) + ExtentsFindings(Recs(), es, InTree(path))
      ensures forall id :: id in named <==> id in old(named) || (id in ExtentIds(es) && Indexed(Recs(), id))
    {
      hide Contents.MarksOk, Placed, Indexed, Contents.CacheOk, ExtentIds, ChunkFindings;
      NoExtents(es);
      for i := 0 to |es|
        invariant Valid() && problems == old(problems) + ExtentsFindings(Recs(), es[..i], InTree(path))
        invariant forall id :: id in named <==> id in old(named) || (id in ExtentIds(es[..i]) && Indexed(Recs(), id))
      {
        assert es[..i + 1][..i] == es[..i];
        var e := es[i];
        OneMoreExtent(es, i);
        if e.llen < 0 || e.clen < 0 {
          Report(ChunkRefs, InTree(path));
        } else if e.offset < 0 || e.offset > I64_MAX - e.llen {
          Report(ChunkRefs, InTree(path));
        } else if e.identity.Some? {
          if |e.identity.value| != FsckVolume.ID_LEN {
            Report(ChunkRefs, InTree(path));
          } else {
            CheckChunkRef(e.identity.value, e.clen, path);
          }
        }
      }
      assert es[..|es|] == es;
    }

    /** Inline data first, extents otherwise; an empty file may have neither. */
    method CheckContent(content: Reader, n: Node, path: seq<Bytes>)
      requires Valid()
      modifies `problems, `chunks, `seen, `named, `inlineFiles
      ensures Valid() && problems == old(problems) + ContentFindings(Recs(), content, n, InTree(path))
      ensures forall id :: id in named <==> id in old(named) || (id in ContentIds(content, n) && Indexed(Recs(), id))
      ensures inlineFiles == old(inlineFiles) + if HasInline(content, n) then 1 else 0
    {
      hide Contents.MarksOk, Contents.CacheOk, ExtentIds, Indexed, ExtentsFindings;
      match content.inline(n.inode)
      case Err(_) =>
        Report(ContentRows, InTree(path));
      case Ok(Some(data)) =>
        inlineFiles := inlineFiles + 1;
        if |data| != n.length {
          Report(ContentRows, InTree(path));
        }
      case Ok(None) =>
        match content.chunks(n.inode)
        case Err(_) =>
          Report(ChunkRefs, InTree(path));
        case Ok(None) =>
          if n.length > 0 {
            Report(ContentRows, InTree(path));
          }
        case Ok(Some(es)) =>
          CheckExtents(es, path);
    }

    method FindShard(ino: u64) returns (s: Option<Shard>)
      ensures s == ShardFor(vol.shards, ino)
    {
      var i := 0;
      while i < |vol.shards|
        invariant i <= |vol.shards| && ShardFor(vol.shards, ino) == ShardFor(vol.shards[i..], ino)
      {
        var sh := vol.shards[i];
        if sh.first <= ino <= sh.last {
          return Some(sh);
        }
        i := i + 1;
      }
      return None;
    }

    /** One regular file's content records, in the catalog of its node or in the shard it routes to. */
    method CheckFile(r: Reader, n: Node, path: seq<Bytes>)
      requires Valid() && Cached()
      modifies `problems, `chunks, `seen, `named, `inlineFiles, `shards
      ensures Valid() && shards == old(shards)
      ensures problems == old(problems) + FileFindings(vol, Recs(), r, n, InTree(path))
      ensures forall id :: id in named <==> id in old(named) || (id in FileIds(vol, r, n) && Indexed(Recs(), id))
      ensures inlineFiles == old(inlineFiles) + if FileInline(vol, r, n) then 1 else 0
    {
      hide Contents.MarksOk, Contents.CacheOk, Indexed, ContentFindings, ContentIds, HasInline;
      var content := r;
      if n.nlink > 1 {
        var sh := FindShard(ToU64(n.inode));
        if sh.None? {
          Report(ShardRouting, InTree(path));
          return;
        }
        ghost var k :| 0 <= k < |vol.shards| && vol.shards[k] == sh.value;
        assert vol.shards[k].identity in shards;
        var shard := OpenShard(sh.value.identity, InShard(sh.value.first, sh.value.last));
        if shard.None? {
          return;
        }
        match shard.value.stat(n.inode)
        case Err(_) =>
          Report(ShardRouting, InTree(path));
          return;
        case Ok(sn) =>
          if sn.length != n.length {
            Report(ShardRouting, InTree(path));
          }
          content := shard.value;
      }
      CheckContent(content, n, path);
    }
  }

  /** How many of the first n shards open. */
  ghost function ShardsOpen(vol: Volume, n: nat): nat
    requires n <= |vol.shards|
  {
    if n == 0 then 0
    else ShardsOpen(vol, n - 1) + (if vol.Opened(vol.shards[n - 1].identity).Some? then 1 else 0)
  }

  /** With the shards in order at most one covers an inode, so which one routing picks is no accident. */
  lemma {:induction false} RoutingUnambiguous(vol: Volume, i: nat, j: nat, ino: u64)
    requires ShardsOk(vol) && i < |vol.shards| && j < |vol.shards|
    requires vol.shards[i].first <= ino <= vol.shards[i].last && vol.shards[j].first <= ino <= vol.shards[j].last
    ensures i == j
  {
    if i < j {
      RangesAscend(vol, i, j);
    } else if j < i {
      RangesAscend(vol, j, i);
    }
  }

  lemma {:induction false} RangesAscend(vol: Volume, i: nat, j: nat)
    requires ShardsOk(vol) && i < j < |vol.shards|
    ensures vol.shards[i].last < vol.shards[j].first
    decreases j
  {
    assert ShardOk(vol, j) && ShardOk(vol, j - 1);
    if i < j - 1 {
      RangesAscend(vol, i, j - 1);
    }
  }

  // ---------- Marks ----------

  /** The marks of a set of identities. */
  ghost predicate MarksFor(recs: seq<Bytes>, named: set<Bytes>, words: seq<nat>) {
    && |words| == WordsFor(|recs|)
    && forall k: nat :: k < |recs| ==>
         (k / WORD_BITS < |words| && Marked(words, k) <==> exists x :: x in named && FirstOf(recs, x, k))
  }

  lemma NoneMarked(recs: seq<Bytes>)
    ensures Words(Unmarked(|recs|)) && MarksFor(recs, {}, Unmarked(|recs|))
  {
    hide Unmarked, Words, WordsFor, Marked;
    UnmarkedWords(|recs|);
    forall k: nat | k < |recs|
      ensures k / WORD_BITS < WordsFor(|recs|) && !Marked(Unmarked(|recs|), k)
    {
      WordsReach(|recs|, k);
      NothingMarked(|recs|, k);
    }
  }

  /** A position belongs to one identity, so its mark is that identity's. */
  lemma FirstNamed(recs: seq<Bytes>, named: set<Bytes>, words: seq<nat>, id: Bytes, at: nat)
    requires MarksFor(recs, named, words) && FirstOf(recs, id, at)
    ensures at / WORD_BITS < |words| && words != [] && Indexed(recs, id)
    ensures Marked(words, at) <==> id in named
  {
    hide WordsFor, Marked;
    WordsReach(|recs|, at);
    assert Names(recs[at], id);
    if x :| x in named && FirstOf(recs, x, at) {
      FirstIsUnique(recs, id, at, x, at);
    }
  }

  lemma AlreadyMarked(recs: seq<Bytes>, named: set<Bytes>, words: seq<nat>, id: Bytes)
    requires MarksFor(recs, named, words) && id in named
    ensures MarksFor(recs, named + {id}, words)
  {
    assert named + {id} == named;
  }

  lemma MarkedToo(recs: seq<Bytes>, named: set<Bytes>, words: seq<nat>, id: Bytes, at: nat)
    requires MarksFor(recs, named, words) && FirstOf(recs, id, at) && at / WORD_BITS < |words|
    ensures MarksFor(recs, named + {id}, Mark(words, at))
  {
    hide WordsFor, Marked, Mark, FirstOf;
    forall k: nat | k < |recs|
      ensures k / WORD_BITS < |words|
      ensures Marked(Mark(words, at), k) <==> exists x :: x in named + {id} && FirstOf(recs, x, k)
    {
      WordsReach(|recs|, k);
      MarkSetsOne(words, at, k);
      if x :| x in named + {id} && FirstOf(recs, x, k) && x == id {
        FirstIsUnique(recs, id, at, id, k);
      }
    }
  }

  // ---------- Extents ----------

  lemma NoExtents(es: seq<FileExtent>)
    ensures ExtentIds(es[..0]) == {}
  {
  }

  lemma OneMoreExtent(es: seq<FileExtent>, i: nat)
    requires i < |es|
    ensures ExtentIds(es[..i + 1]) == ExtentIds(es[..i]) + (if Resolves(es[i]) then {es[i].identity.value} else {})
  {
    var a, b := es[..i], es[..i + 1];
    assert forall k :: 0 <= k < i ==> a[k] == b[k];
    forall id | id in ExtentIds(b)
      ensures id in ExtentIds(a) || (Resolves(es[i]) && id == es[i].identity.value)
    {
      var k :| 0 <= k < |b| && Resolves(b[k]) && id == b[k].identity.value;
      assert k < i ==> a[k] == b[k];
    }
    forall id | id in ExtentIds(a)
      ensures id in ExtentIds(b)
    {
      var k :| 0 <= k < |a| && Resolves(a[k]) && id == a[k].identity.value;
      assert b[k] == a[k];
    }
    assert b[i] == es[i];
  }
}
