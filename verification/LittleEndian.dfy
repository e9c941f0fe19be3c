/** Fixed-width little-endian fields, and records packed from them. */
module LittleEndian {
  import opened Bytes

  const BYTE_RANGE := 0x100
  const U16_RANGE := 0x1_0000
  const U32_RANGE := 0x1_0000_0000
  const U63_RANGE := 0x8000_0000_0000_0000
  const U64_RANGE := 0x1_0000_0000_0000_0000

  type u8 = x: nat | x < BYTE_RANGE
  type u16 = x: nat | x < U16_RANGE
  type u32 = x: nat | x < U32_RANGE
  type u64 = x: nat | x < U64_RANGE
  type i64 = x: int | -U63_RANGE <= x < U63_RANGE

  /** How many values w bytes tell apart. */
  function Range(w: nat): (r: nat)
    ensures r > 0
  {
    if w == 0 then 1 else BYTE_RANGE * Range(w - 1)
  }

  lemma Ranges()
    ensures Range(1) == BYTE_RANGE && Range(2) == U16_RANGE && Range(4) == U32_RANGE && Range(8) == U64_RANGE
  {
    assert Range(3) == 0x100_0000;
    assert Range(5) == 0x100_0000_0000;
    assert Range(6) == 0x1_0000_0000_0000;
    assert Range(7) == 0x100_0000_0000_0000;
  }

  /** The w low bytes of n, least first. */
  function Le(n: nat, w: nat): (b: Bytes)
    ensures |b| == w
  {
    if w == 0 then [] else [(n % BYTE_RANGE) as byte] + Le(n / BYTE_RANGE, w - 1)
  }

  function UnLe(b: Bytes): (n: nat)
    ensures n < Range(|b|)
  {
    if b == [] then 0
    else
      var rest := UnLe(b[1..]);
      b[0] as nat + BYTE_RANGE * rest
  }

  lemma {:induction false} LeRoundTrip(n: nat, w: nat)
    requires n < Range(w)
    ensures UnLe(Le(n, w)) == n
  {
    if w > 0 {
      LeRoundTrip(n / BYTE_RANGE, w - 1);
      assert Le(n, w)[1..] == Le(n / BYTE_RANGE, w - 1);
    }
  }

  /** uint64(x) of a signed 64-bit x. */
  function ToU64(x: i64): u64 {
    if x >= 0 then x else x + U64_RANGE
  }

  /** int64(u). */
  function ToI64(u: u64): i64 {
    if u < U63_RANGE then u else u - U64_RANGE
  }

  lemma SignRoundTrip(x: i64)
    ensures ToI64(ToU64(x)) == x
  {
  }

  /** Two's complement: the two differ by a multiple of 2^64. */
  lemma SignsAgree(x: i64, u: u64)
    ensures (ToU64(x) - x) % U64_RANGE == 0 && (u - ToI64(u)) % U64_RANGE == 0
  {
  }

  // ---------- Reading a field ----------

  function U8At(r: Bytes, off: nat): u8
    requires off < |r|
  {
    r[off] as nat
  }

  function U16At(r: Bytes, off: nat): u16
    requires off + 2 <= |r|
  {
    Ranges();
    UnLe(r[off..off + 2])
  }

  function U32At(r: Bytes, off: nat): u32
    requires off + 4 <= |r|
  {
    Ranges();
    UnLe(r[off..off + 4])
  }

  function U64At(r: Bytes, off: nat): u64
    requires off + 8 <= |r|
  {
    Ranges();
    UnLe(r[off..off + 8])
  }

  function I64At(r: Bytes, off: nat): i64
    requires off + 8 <= |r|
  {
    ToI64(U64At(r, off))
  }

  lemma {:induction false} UnLeSplit(b: Bytes, k: nat)
    requires k <= |b|
    ensures UnLe(b) == UnLe(b[..k]) + Range(k) * UnLe(b[k..])
  {
    if k > 0 {
      UnLeSplit(b[1..], k - 1);
      assert b[1..][..k - 1] == b[..k][1..] && b[1..][k - 1..] == b[k..];
      OneByteUp(UnLe(b[..k][1..]), Range(k - 1), UnLe(b[k..]));
    } else {
      assert b[..0] == [] && b[0..] == b;
    }
  }

  lemma OneByteUp(low: nat, range: nat, high: nat)
    ensures BYTE_RANGE * (low + range * high) == BYTE_RANGE * low + BYTE_RANGE * range * high
  {
  }

  lemma UnLeTwo(b: Bytes)
    requires |b| == 2
    ensures UnLe(b) == b[0] as nat + 0x100 * b[1] as nat
  {
    assert b[1..][1..] == [];
    assert UnLe(b[1..]) == b[1] as nat;
  }

  /** Where the bytes of a number are: the least first, each worth 256 times the one before. */
  lemma LeastFirst(r: Bytes, off: nat)
    ensures off + 2 <= |r| ==> U16At(r, off) == r[off] as nat + 0x100 * r[off + 1] as nat
    ensures off + 4 <= |r| ==> U32At(r, off) == U16At(r, off) + 0x1_0000 * U16At(r, off + 2)
    ensures off + 8 <= |r| ==> U64At(r, off) == U32At(r, off) + 0x1_0000_0000 * U32At(r, off + 4)
  {
    hide UnLe;
    Ranges();
    if off + 2 <= |r| {
      UnLeTwo(r[off..off + 2]);
    }
    if off + 4 <= |r| {
      Halves(r, off, 2);
    }
    if off + 8 <= |r| {
      Halves(r, off, 4);
    }
  }

  lemma Halves(r: Bytes, off: nat, w: nat)
    requires off + 2 * w <= |r|
    ensures UnLe(r[off..off + 2 * w]) == UnLe(r[off..off + w]) + Range(w) * UnLe(r[off + w..off + 2 * w])
  {
    hide UnLe, Range;
    var b := r[off..off + 2 * w];
    UnLeSplit(b, w);
    assert b[..w] == r[off..off + w] && b[w..] == r[off + w..off + 2 * w];
  }

  // ---------- Packing fields ----------

  datatype Field = Field(value: nat, width: nat)

  predicate Fits(fs: seq<Field>) {
    forall k :: 0 <= k < |fs| ==> fs[k].value < Range(fs[k].width)
  }

  function Start(fs: seq<Field>, k: nat): nat
    requires k <= |fs|
  {
    if k == 0 then 0 else Start(fs, k - 1) + fs[k - 1].width
  }

  function Pack(fs: seq<Field>): (b: Bytes)
    ensures |b| == Start(fs, |fs|)
  {
    if fs == [] then []
    else
      StartOfPrefix(fs, |fs| - 1);
      Pack(fs[..|fs| - 1]) + Le(fs[|fs| - 1].value, fs[|fs| - 1].width)
  }

  lemma {:induction false} StartOfPrefix(fs: seq<Field>, k: nat)
    requires k < |fs|
    ensures Start(fs[..|fs| - 1], k) == Start(fs, k)
  {
    if k > 0 {
      StartOfPrefix(fs, k - 1);
    }
  }

  lemma {:induction false} PackField(fs: seq<Field>, k: nat)
    requires Fits(fs) && k < |fs|
    ensures Start(fs, k) + fs[k].width <= |Pack(fs)|
    ensures UnLe(Pack(fs)[Start(fs, k)..Start(fs, k) + fs[k].width]) == fs[k].value
  {
    hide Le, UnLe, Start;
    var n := |fs| - 1;
    var front, last := fs[..n], Le(fs[n].value, fs[n].width);
    StartOfPrefix(fs, n);
    if k == n {
      LeRoundTrip(fs[n].value, fs[n].width);
      assert Pack(fs)[Start(fs, k)..Start(fs, k) + fs[k].width] == last;
    } else {
      PackField(front, k);
      StartOfPrefix(fs, k);
      assert Pack(fs)[Start(fs, k)..Start(fs, k) + fs[k].width]
          == Pack(front)[Start(fs, k)..Start(fs, k) + fs[k].width];
    }
  }

  // ---------- Arrays of fixed-width records ----------

  /** Record i of an array of w-byte records. */
  function Rec(sec: Bytes, w: nat, i: nat): (r: Bytes)
    requires (i + 1) * w <= |sec|
    ensures |r| == w
  {
    assert i * w + w == (i + 1) * w;
    sec[i * w..(i + 1) * w]
  }

  function Flat(recs: seq<Bytes>): Bytes {
    if recs == [] then [] else Flat(recs[..|recs| - 1]) + recs[|recs| - 1]
  }

  ghost predicate Widths(recs: seq<Bytes>, w: nat) {
    forall i :: 0 <= i < |recs| ==> |recs[i]| == w
  }

  lemma {:induction false} FlatLength(recs: seq<Bytes>, w: nat)
    requires Widths(recs, w)
    ensures |Flat(recs)| == |recs| * w
  {
    if recs != [] {
      FlatLength(recs[..|recs| - 1], w);
      assert (|recs| - 1) * w + w == |recs| * w;
    }
  }

  lemma {:induction false} FlatRec(recs: seq<Bytes>, w: nat, i: nat)
    requires Widths(recs, w) && i < |recs|
    ensures (i + 1) * w <= |Flat(recs)| && Rec(Flat(recs), w, i) == recs[i]
  {
    var n := |recs| - 1;
    FlatLength(recs, w);
    FlatLength(recs[..n], w);
    if i < n {
      FlatRec(recs[..n], w, i);
      assert Flat(recs)[i * w..(i + 1) * w] == Flat(recs[..n])[i * w..(i + 1) * w];
    } else {
      assert (n + 1) * w == n * w + w;
    }
  }
}
