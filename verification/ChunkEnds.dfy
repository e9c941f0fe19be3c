/**
  Where chunks end, said without the rolling hash: by the weighted sum of the gear values of the bytes
  since min and by the bits of a 64-bit mask.
 */
module ChunkEnds {
  import opened Arithmetic
  import opened Bytes
  import opened Fingerprint
  import opened Powers
  import opened Chunking

  // ---------- The fingerprint as a sum ----------

  /** The first n bytes of s, each byte's gear value doubled once for every byte of s after it. */
  ghost function GearSum(gear: Gear, s: seq<byte>, n: nat): int
    requires n <= |s|
  {
    if n == 0 then 0 else GearSum(gear, s, n - 1) + Pow2(|s| - n) * gear(s[n - 1])
  }

  lemma {:induction false} OneByteOn(gear: Gear, s: seq<byte>, b: byte, n: nat)
    requires n <= |s|
    ensures GearSum(gear, s + [b], n) == 2 * GearSum(gear, s, n)
  {
    if n > 0 {
      OneByteOn(gear, s, b, n - 1);
      assert (s + [b])[n - 1] == s[n - 1];
      Doubled(Pow2(|s| - n), gear(s[n - 1]));
    }
  }

  lemma Doubled(p: int, g: int)
    ensures (2 * p) * g == 2 * (p * g)
  {
  }

  lemma HashStep(h: int, sum: int, g: int)
    requires h == sum % WORD
    ensures (2 * h + g) % WORD == (2 * sum + g) % WORD
  {
    SameMod(2 * sum + g, 2 * h + g, 2 * (sum / WORD));
  }

  /** The hash is that sum, wrapped at 2^64. */
  lemma {:induction false} HashClosedForm(gear: Gear, s: seq<byte>)
    ensures Hash(gear, s) == GearSum(gear, s, |s|) % WORD
  {
    if s != [] {
      var n := |s| - 1;
      var front := s[..n];
      HashClosedForm(gear, front);
      assert s == front + [s[n]];
      OneByteOn(gear, front, s[n], n);
      assert Pow2(0) == 1;
      HashStep(Hash(gear, front), GearSum(gear, front, n), gear(s[n]));
    }
  }

  // ---------- The masks ----------

  /** All ones shifted left by 64 - k. */
  ghost function TopMask(k: nat): (m: nat)
    requires k <= 64
  {
    WordIsPow2();
    Pow2Grows(64 - k, 64);
    WORD - Pow2(64 - k)
  }

  /** h and the mask have a bit in common. */
  ghost predicate Meets(h: nat, k: nat)
    requires k <= 64
  {
    exists j: nat :: j < 64 && Bit(h, j) && Bit(TopMask(k), j)
  }

  lemma Halved(q: nat, p: nat, r: nat)
    requires r < p
    ensures (q * p + r) / p == q
  {
    ModUnique(q * p + r, q, r, p);
  }

  /** The mask's bits are the k highest. */
  lemma MaskBits(k: nat, j: nat)
    requires k <= 64 && j < 64
    ensures Bit(TopMask(k), j) <==> j >= 64 - k
  {
    hide Pow2;
    WordIsPow2();
    Pow2Adds(64 - k, k);
    var m := TopMask(k);
    if j < 64 - k {
      Pow2Adds(j, 64 - k - j);
      Pow2Adds(64 - k - j, k);
      var half := Pow2(64 - k - j - 1);
      assert Pow2(64 - k - j) == 2 * half by { PowerStep(64 - k - j - 1); }
      LowBit(m, Pow2(j), half, Pow2(k));
    } else {
      var e := j - (64 - k);
      Pow2Adds(64 - k, e);
      Pow2Adds(64 - k + e, 64 - j);
      var half := Pow2(64 - j - 1);
      assert Pow2(64 - j) == 2 * half by { PowerStep(64 - j - 1); }
      Pow2Grows(64 - k, j);
      HighBit(m, Pow2(j), half, Pow2(64 - k));
    }
  }

  lemma PowerStep(k: nat)
    ensures Pow2(k + 1) == 2 * Pow2(k)
  {
  }

  /** m is p * 2 * half * (top - 1). */
  lemma LowBit(m: nat, p: nat, half: nat, top: nat)
    requires p > 0 && top > 0 && m == p * (2 * half) * top - p * (2 * half)
    ensures m / p % 2 == 0
  {
    var q := 2 * half * top - 2 * half;
    assert m == q * p + 0;
    assert q == 2 * (half * top - half);
    assert half * top >= half by { TimesMore(half, top); }
    Halved(q, p, 0);
  }

  lemma TimesMore(a: nat, b: nat)
    requires b > 0
    ensures a * b >= a
  {
  }

  /** m is p * 2 * half less a smaller power. */
  lemma HighBit(m: nat, p: nat, half: nat, low: nat)
    requires half > 0 && 0 < low <= p && m == p * (2 * half) - low
    ensures m / p % 2 == 1
  {
    var q := 2 * half - 1;
    assert m == q * p + (p - low);
    Halved(q, p, p - low);
  }

  lemma {:induction false} SomeBit(h: nat, lo: nat, hi: nat) returns (j: nat)
    requires Pow2(lo) <= h < Pow2(hi)
    ensures lo <= j < hi && Bit(h, j)
    decreases hi
  {
    if hi == 0 || Pow2(hi - 1) <= h {
      if hi <= lo {
        Pow2Grows(hi, lo);
      }
      j := hi - 1;
      assert h == 1 * Pow2(j) + (h - Pow2(j));
      Halved(1, Pow2(j), h - Pow2(j));
    } else {
      j := SomeBit(h, lo, hi - 1);
    }
  }

  /** Top bits clear is no bit in common with the mask. */
  lemma TopBitsExactly(h: nat, k: nat)
    requires k <= 64 && h < WORD
    ensures TopBitsClear(h, k) <==> !Meets(h, k)
  {
    hide Pow2, TopMask;
    WordIsPow2();
    if h < Pow2(64 - k) {
      forall j: nat | j < 64 && Bit(TopMask(k), j)
        ensures !Bit(h, j)
      {
        MaskBits(k, j);
        Pow2Grows(64 - k, j);
        assert h == 0 * Pow2(j) + h;
        Halved(0, Pow2(j), h);
      }
    } else {
      var j := SomeBit(h, 64 - k, 64);
      MaskBits(k, j);
    }
  }

  // ---------- Where a chunk may end ----------

  /** The sum of the bytes from min up to and including i has no bit in common with the mask in force at i. */
  ghost predicate Marks(c: Config, src: Bytes, i: nat)
    requires c.Legal()
  {
    c.min <= i < |src| && !Meets(GearSum(c.gear, src[c.min..i + 1], i + 1 - c.min) % WORD, if i < c.avg then c.strict else c.loose)
  }

  lemma CutsExactly(c: Config, src: Bytes, i: nat)
    requires c.Legal() && c.min <= i < |src|
    ensures CutsAt(c, src, i) <==> Marks(c, src, i)
  {
    hide Hash, GearSum, Meets, TopBitsClear;
    HashClosedForm(c.gear, src[c.min..i + 1]);
    TopBitsExactly(Hash(c.gear, src[c.min..i + 1]), if i < c.avg then c.strict else c.loose);
  }

  /** The chunk that starts at off is n bytes: up to the first mark past min, at most max, or all there is. */
  ghost predicate EndsRight(c: Config, s: Bytes, off: nat, n: nat)
    requires c.Legal()
  {
    && off + n <= |s| && 0 < n <= c.max
    && (forall i: nat :: c.min <= i < n - 1 ==> !Marks(c, s[off..], i))
    && (n == c.max || off + n == |s| || (n > c.min && Marks(c, s[off..], n - 1)))
  }

  /** There is only one such length. */
  lemma OneEnd(c: Config, s: Bytes, off: nat, m: nat, n: nat)
    requires c.Legal() && EndsRight(c, s, off, m) && EndsRight(c, s, off, n)
    ensures m == n
  {
    hide Marks;
  }

  lemma FirstCutEnds(c: Config, s: Bytes, off: nat)
    requires c.Legal() && off < |s|
    ensures EndsRight(c, s, off, FirstCut(c, s[off..]))
  {
    hide Marks, CutsAt, CutFrom;
    var rest := s[off..];
    var w := Window(c, rest);
    var n := FirstCut(c, rest);
    forall i: nat | c.min <= i < |w|
      ensures CutsAt(c, w, i) <==> Marks(c, rest, i)
    {
      CutsExactly(c, w, i);
      SameMark(c, w, rest, i);
    }
    if |w| > c.min {
      forall i: nat | c.min <= i < n - 1
        ensures !Marks(c, rest, i)
      {
        CutFromIsFirst(c, w, c.min, i);
      }
      CutFromIsFirst(c, w, c.min, n - 1);
    }
  }

  lemma SameMark(c: Config, w: Bytes, rest: Bytes, i: nat)
    requires c.Legal() && w <= rest && c.min <= i < |w|
    ensures Marks(c, w, i) <==> Marks(c, rest, i)
  {
    hide Meets, GearSum;
    assert w[c.min..i + 1] == rest[c.min..i + 1];
  }

  // ---------- Whole streams ----------

  /** chunks, laid end to end from off on, each end right. */
  ghost predicate AllEnd(c: Config, s: Bytes, off: nat, chunks: seq<Bytes>)
    requires c.Legal()
    decreases |chunks|
  {
    chunks != [] ==>
      && EndsRight(c, s, off, |chunks[0]|) && chunks[0] == s[off..off + |chunks[0]|]
      && AllEnd(c, s, off + |chunks[0]|, chunks[1..])
  }

  lemma {:induction false} ChunksEnd(c: Config, s: Bytes, off: nat)
    requires c.Legal() && off <= |s|
    ensures AllEnd(c, s, off, Chunks(c, s[off..]))
    ensures off + |Concat(Chunks(c, s[off..]))| == |s|
    decreases |s| - off
  {
    hide FirstCut, EndsRight;
    if off < |s| {
      var n := FirstCut(c, s[off..]);
      FirstCutEnds(c, s, off);
      assert s[off..][n..] == s[off + n..] && s[off..][..n] == s[off..off + n];
      ChunksEnd(c, s, off + n);
    }
  }

  /** Before a failure fewer than max bytes are left over. */
  lemma {:induction false} ChunksEndEarly(c: Config, s: Bytes, off: nat)
    requires c.Legal() && off <= |s|
    ensures AllEnd(c, s, off, ChunksBeforeFailure(c, s[off..]))
    ensures off + |Concat(ChunksBeforeFailure(c, s[off..]))| <= |s| < off + |Concat(ChunksBeforeFailure(c, s[off..]))| + c.max
    decreases |s| - off
  {
    hide FirstCut, EndsRight;
    if |s| - off >= c.max {
      var n := FirstCut(c, s[off..]);
      FirstCutEnds(c, s, off);
      assert s[off..][n..] == s[off + n..] && s[off..][..n] == s[off..off + n];
      ChunksEndEarly(c, s, off + n);
    }
  }

  /** Chunk k, wherever that puts it. */
  lemma {:induction false} EndOf(c: Config, s: Bytes, off: nat, chunks: seq<Bytes>, k: nat)
    requires c.Legal() && AllEnd(c, s, off, chunks) && k < |chunks|
    ensures var at := off + |Concat(chunks[..k])|;
      EndsRight(c, s, at, |chunks[k]|) && chunks[k] == s[at..at + |chunks[k]|]
    decreases k
  {
    hide EndsRight;
    if k > 0 {
      EndOf(c, s, off + |chunks[0]|, chunks[1..], k - 1);
      assert chunks[..k][1..] == chunks[1..][..k - 1] && chunks[..k][0] == chunks[0];
    } else {
      assert chunks[..0] == [];
    }
  }
}
