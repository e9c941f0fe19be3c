/**
  Content-defined chunking as a pure function of the stream: cut the first chunk off the first
  max bytes, repeat.  No reader and no buffer appear here.
 */
module Chunking {
  import opened Bytes
  import opened Fingerprint
  import opened Powers

  const DEFAULT_MIN_SIZE := 0x10_0000
  const DEFAULT_AVG_SIZE := 0x40_0000
  const DEFAULT_MAX_SIZE := 0x100_0000
  const NORMALIZATION := 2

  // ---------- Configuration ----------

  /** Zero fields take the package defaults. */
  datatype Options = Options(minSize: int, avgSize: int, maxSize: int) {
    function Filled(): Options {
      Options(if minSize == 0 then DEFAULT_MIN_SIZE else minSize,
              if avgSize == 0 then DEFAULT_AVG_SIZE else avgSize,
              if maxSize == 0 then DEFAULT_MAX_SIZE else maxSize)
    }
  }

  /** strict and loose count the high bits the pre- and post-average masks select. */
  datatype Config = Config(min: nat, avg: nat, max: nat, strict: nat, loose: nat, gear: Gear) {
    predicate Legal() {
      0 < min < avg < max && loose <= strict <= 64
    }
  }

  function TrailingZeros(n: nat): nat
    requires n > 0
  {
    if n % 2 == 1 then 0 else 1 + TrailingZeros(n / 2)
  }

  /** None where the source panics: silently different parameters would fork the identity domain. */
  function Configure(opts: Options, gear: Gear): (c: Option<Config>)
    ensures c.Some? ==> c.value.Legal() && c.value.gear == gear
  {
    var o := opts.Filled();
    if o.avgSize > 0 && Pow2(TrailingZeros(o.avgSize)) == o.avgSize
       && 0 < o.minSize < o.avgSize < o.maxSize
    then
      var avgBits := TrailingZeros(o.avgSize);
      if avgBits <= NORMALIZATION || avgBits + NORMALIZATION > 64 then None
      else Some(Config(o.minSize, o.avgSize, o.maxSize, avgBits + NORMALIZATION, avgBits - NORMALIZATION, gear))
    else None
  }

  lemma {:induction false} TrailingZerosOfPow2(k: nat)
    ensures TrailingZeros(Pow2(k)) == k
  {
    if k > 0 {
      TrailingZerosOfPow2(k - 1);
    }
  }

  ghost function Or(size: int, default: int): int {
    if size == 0 then default else size
  }

  /** Exactly which options are accepted, and the masks an average of 2^k gets. */
  lemma ConfigureExactly(opts: Options, gear: Gear, k: nat)
    ensures var min, avg, max := Or(opts.minSize, 0x10_0000), Or(opts.avgSize, 0x40_0000), Or(opts.maxSize, 0x100_0000);
      avg == Pow2(k) ==>
        && (Configure(opts, gear).Some? <==> 3 <= k <= 62 && 0 < min < avg < max)
        && (Configure(opts, gear).Some? ==> Configure(opts, gear).value == Config(min, avg, max, k + 2, k - 2, gear))
  {
    TrailingZerosOfPow2(k);
  }

  lemma ConfigureNeedsPow2(opts: Options, gear: Gear)
    requires Configure(opts, gear).Some?
    ensures exists k: nat :: opts.Filled().avgSize == Pow2(k)
  {
    assert opts.Filled().avgSize == Pow2(TrailingZeros(opts.Filled().avgSize));
  }

  // ---------- One cut ----------

  /** The hash of the bytes from min up to and including i fits the mask in force at i. */
  ghost predicate CutsAt(c: Config, src: Bytes, i: nat)
    requires c.Legal() && c.min <= i < |src|
  {
    TopBitsClear(Hash(c.gear, src[c.min..i + 1]), if i < c.avg then c.strict else c.loose)
  }

  ghost function CutFrom(c: Config, src: Bytes, i: nat): (cut: nat)
    requires c.Legal() && c.min <= i <= |src|
    ensures i <= cut <= |src| && (i < |src| ==> i < cut)
    decreases |src| - i
  {
    if i == |src| then |src|
    else if CutsAt(c, src, i) then i + 1
    else CutFrom(c, src, i + 1)
  }

  /** The length of the first chunk of a window. */
  ghost function CutLen(c: Config, src: Bytes): (cut: nat)
    requires c.Legal()
    ensures cut <= |src| && (src != [] ==> cut > 0) && (cut < |src| ==> cut > c.min)
  {
    if |src| <= c.min then |src| else CutFrom(c, src, c.min)
  }

  /** The cut is the first place past min where the mask is met, and the window's end if none is. */
  lemma {:induction false} CutFromIsFirst(c: Config, src: Bytes, i: nat, j: nat)
    requires c.Legal() && c.min <= i <= j < |src|
    ensures j + 1 < CutFrom(c, src, i) ==> !CutsAt(c, src, j)
    ensures j + 1 == CutFrom(c, src, i) < |src| ==> CutsAt(c, src, j)
    decreases |src| - i
  {
    if !CutsAt(c, src, i) && i < j {
      CutFromIsFirst(c, src, i + 1, j);
    } else if !CutsAt(c, src, i) && i + 1 < |src| {
      assert CutFrom(c, src, i + 1) > i + 1;
    }
  }

  /** A cut found before the window's end does not depend on what follows the window. */
  lemma {:induction false} CutFromStable(c: Config, src: Bytes, ext: Bytes, i: nat)
    requires c.Legal() && c.min <= i <= |src| && src <= ext
    requires CutFrom(c, src, i) < |src|
    ensures CutFrom(c, ext, i) == CutFrom(c, src, i)
    decreases |src| - i
  {
    assert src[c.min..i + 1] == ext[c.min..i + 1];
    if !CutsAt(c, src, i) {
      CutFromStable(c, src, ext, i + 1);
    }
  }

  /** Far enough past min, whether the chunk is cut at i depends on 64 bytes and nothing else. */
  lemma CutIsLocal(c: Config, x: Bytes, y: Bytes, i: nat)
    requires c.Legal() && c.min + 63 <= i < |x| && i < |y|
    requires x[i - 63..i + 1] == y[i - 63..i + 1]
    ensures CutsAt(c, x, i) == CutsAt(c, y, i)
  {
    assert x[c.min..i + 1] == x[c.min..i - 63] + x[i - 63..i + 1];
    assert y[c.min..i + 1] == y[c.min..i - 63] + y[i - 63..i + 1];
    HashIsLocal(c.gear, x[c.min..i - 63], x[i - 63..i + 1]);
    HashIsLocal(c.gear, y[c.min..i - 63], y[i - 63..i + 1]);
  }

  // ---------- The whole stream ----------

  function Window(c: Config, s: Bytes): Bytes {
    if |s| <= c.max then s else s[..c.max]
  }

  ghost function FirstCut(c: Config, s: Bytes): (cut: nat)
    requires c.Legal()
    ensures cut <= |s| && cut <= c.max && (s != [] ==> cut > 0) && (cut < |s| ==> cut > c.min)
  {
    CutLen(c, Window(c, s))
  }

  ghost function Chunks(c: Config, s: Bytes): seq<Bytes>
    requires c.Legal()
    decreases |s|
  {
    if s == [] then [] else [s[..FirstCut(c, s)]] + Chunks(c, s[FirstCut(c, s)..])
  }

  /** What is emitted of a stream whose reader fails after s: chunks cut from full windows only. */
  ghost function ChunksBeforeFailure(c: Config, s: Bytes): seq<Bytes>
    requires c.Legal()
    decreases |s|
  {
    if |s| < c.max then [] else [s[..FirstCut(c, s)]] + ChunksBeforeFailure(c, s[FirstCut(c, s)..])
  }

  ghost function Concat(chunks: seq<Bytes>): Bytes {
    if chunks == [] then [] else chunks[0] + Concat(chunks[1..])
  }

  /** Nothing is lost, nothing is reordered. */
  lemma {:induction false} ChunksConcat(c: Config, s: Bytes)
    requires c.Legal()
    ensures Concat(Chunks(c, s)) == s
    decreases |s|
  {
    if s != [] {
      var cut := FirstCut(c, s);
      ChunksConcat(c, s[cut..]);
      assert Chunks(c, s)[1..] == Chunks(c, s[cut..]);
      assert s == s[..cut] + s[cut..];
    }
  }

  /** Every chunk is within (min, max] except the last, which may be shorter but not empty. */
  lemma {:induction false} ChunkSizes(c: Config, s: Bytes, k: nat)
    requires c.Legal() && k < |Chunks(c, s)|
    ensures 0 < |Chunks(c, s)[k]| <= c.max
    ensures k + 1 < |Chunks(c, s)| ==> |Chunks(c, s)[k]| > c.min
    decreases |s|
  {
    var cut := FirstCut(c, s);
    if k > 0 {
      ChunkSizes(c, s[cut..], k - 1);
    } else if 1 < |Chunks(c, s)| {
      assert s[cut..] != [];
    }
  }

  /** Bytes beyond a full window do not move its cut. */
  lemma FirstCutStable(c: Config, s: Bytes, ext: Bytes)
    requires c.Legal() && s <= ext && |s| >= c.max
    ensures FirstCut(c, ext) == FirstCut(c, s)
  {
    assert Window(c, ext) == Window(c, s);
  }

  /** A cut strictly inside what has been seen stays where it is, however the stream goes on. */
  lemma InnerCutStable(c: Config, s: Bytes, ext: Bytes)
    requires c.Legal() && s <= ext && FirstCut(c, s) < |s|
    ensures FirstCut(c, ext) == FirstCut(c, s)
  {
    if |s| >= c.max {
      FirstCutStable(c, s, ext);
    } else {
      assert s <= Window(c, ext);
      CutFromStable(c, s, Window(c, ext), c.min);
    }
  }

  /** Chunks emitted before a read error are a prefix of the chunking of every extension. */
  lemma {:induction false} FailurePrefix(c: Config, s: Bytes, ext: Bytes)
    requires c.Legal() && s <= ext
    ensures ChunksBeforeFailure(c, s) <= Chunks(c, ext)
    decreases |s|
  {
    if |s| >= c.max {
      FirstCutStable(c, s, ext);
      var cut := FirstCut(c, s);
      assert s[..cut] == ext[..cut] && s[cut..] <= ext[cut..];
      FailurePrefix(c, s[cut..], ext[cut..]);
    }
  }

  /** All chunks but the last of a stream survive any extension of it: appends dedup. */
  lemma {:induction false} AppendKeepsChunks(c: Config, s: Bytes, ext: Bytes)
    requires c.Legal() && s <= ext && s != []
    ensures var n := |Chunks(c, s)|; n > 0 && Chunks(c, s)[..n - 1] <= Chunks(c, ext)
    decreases |s|
  {
    var cut := FirstCut(c, s);
    if cut < |s| {
      InnerCutStable(c, s, ext);
      assert s[..cut] == ext[..cut] && s[cut..] <= ext[cut..];
      AppendKeepsChunks(c, s[cut..], ext[cut..]);
      var n := |Chunks(c, s)|;
      assert Chunks(c, s)[..n - 1] == [s[..cut]] + Chunks(c, s[cut..])[..n - 2];
    } else {
      assert s[cut..] == [];
      assert Chunks(c, s)[..0] == [];
    }
  }

  // ---------- Boundaries and resynchronisation ----------

  /** A chunk of s ends at p (or p is its start). */
  ghost predicate IsBoundary(c: Config, s: Bytes, p: nat)
    requires c.Legal()
    decreases |s|
  {
    p == 0 || (s != [] && p >= FirstCut(c, s) && IsBoundary(c, s[FirstCut(c, s)..], p - FirstCut(c, s)))
  }

  lemma {:induction false} BoundaryInside(c: Config, s: Bytes, p: nat)
    requires c.Legal() && IsBoundary(c, s, p)
    ensures p <= |s|
    decreases |s|
  {
    if p > 0 {
      BoundaryInside(c, s[FirstCut(c, s)..], p - FirstCut(c, s));
    }
  }

  lemma NothingBefore(c: Config, s: Bytes)
    requires c.Legal()
    ensures Chunks(c, s)[0..] == Chunks(c, s[0..]) && Concat(Chunks(c, s)[..0]) == s[..0]
  {
    assert s[0..] == s;
  }

  lemma BoundaryStep(c: Config, s: Bytes, p: nat)
    requires c.Legal() && IsBoundary(c, s, p) && p > 0
    ensures s != [] && p >= FirstCut(c, s) && IsBoundary(c, s[FirstCut(c, s)..], p - FirstCut(c, s))
  {
  }

  lemma ChunksStep(c: Config, s: Bytes)
    requires c.Legal() && s != []
    ensures Chunks(c, s) == [s[..FirstCut(c, s)]] + Chunks(c, s[FirstCut(c, s)..])
  {
  }

  lemma ConcatStep(chunk: Bytes, rest: seq<Bytes>)
    ensures Concat([chunk] + rest) == chunk + Concat(rest)
  {
  }

  /** From a boundary on, the chunks are those of the rest of the stream taken by itself. */
  lemma {:induction false} RestartAtBoundary(c: Config, s: Bytes, p: nat) returns (k: nat)
    requires c.Legal() && IsBoundary(c, s, p)
    ensures p <= |s| && k <= |Chunks(c, s)| && Chunks(c, s)[k..] == Chunks(c, s[p..])
    ensures Concat(Chunks(c, s)[..k]) == s[..p]
    decreases |s|
  {
    hide FirstCut, Chunks, Concat, IsBoundary;
    BoundaryInside(c, s, p);
    if p == 0 {
      k := 0;
      NothingBefore(c, s);
    } else {
      BoundaryStep(c, s, p);
      var cut := FirstCut(c, s);
      var j := RestartAtBoundary(c, s[cut..], p - cut);
      k := j + 1;
      ChunksStep(c, s);
      var rest := Chunks(c, s[cut..]);
      ConcatStep(s[..cut], rest[..j]);
      assert s[cut..][p - cut..] == s[p..];
      assert Chunks(c, s)[k..] == rest[j..];
      assert Chunks(c, s)[..k] == [s[..cut]] + rest[..j];
      assert s[..cut] + s[cut..][..p - cut] == s[..p];
    }
  }

  /**
    Resynchronisation: two streams that both have a boundary where a common suffix starts have
    the same chunks from there to the end, whatever came before.
   */
  lemma Resynchronise(c: Config, x: Bytes, p: nat, y: Bytes, q: nat) returns (j: nat, k: nat)
    requires c.Legal() && IsBoundary(c, x, p) && IsBoundary(c, y, q)
    requires p <= |x| && q <= |y| && x[p..] == y[q..]
    ensures j <= |Chunks(c, x)| && k <= |Chunks(c, y)| && Chunks(c, x)[j..] == Chunks(c, y)[k..]
    ensures Concat(Chunks(c, x)[..j]) == x[..p] && Concat(Chunks(c, y)[..k]) == y[..q]
  {
    j := RestartAtBoundary(c, x, p);
    k := RestartAtBoundary(c, y, q);
  }
}
