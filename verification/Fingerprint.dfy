/**
  The gear rolling hash and the masks that turn it into cut points.  The gear table is an
  arbitrary function: nothing here depends on its values.  A uint64 is a number below 2^64, and
  `h & topMask(k) == 0` is written as what it means: the k highest bits of h are zero.
 */
module Fingerprint {

  import opened Bytes
  import opened Powers

  type Gear = byte -> int

  const WORD := 0x1_0000_0000_0000_0000

  /** One hashed byte: shift left, add the byte's gear value, wrapping at 2^64. */
  function Absorb(gear: Gear, h: nat, b: byte): (h': nat)
    ensures h' < WORD
  {
    (2 * h + gear(b)) % WORD
  }

  /** The hash of `s` from a zero start. */
  ghost function Hash(gear: Gear, s: seq<byte>): (h: nat)
    ensures h < WORD
  {
    if s == [] then 0 else Absorb(gear, Hash(gear, s[..|s| - 1]), s[|s| - 1])
  }

  /** What k further hashed bytes do to a hash already accumulated. */
  ghost function Shifted(h: nat, k: nat): nat {
    if k == 0 then h else 2 * Shifted(h, k - 1) % WORD
  }

  lemma AbsorbSum(gear: Gear, x: nat, y: nat, b: byte)
    ensures Absorb(gear, (x + y) % WORD, b) == (2 * x % WORD + Absorb(gear, y, b)) % WORD
  {
    var g := gear(b);
    var whole, parts := 2 * ((x + y) % WORD) + g, 2 * x % WORD + (2 * y + g) % WORD;
    SameMod(whole, parts, 2 * x / WORD + (2 * y + g) / WORD - 2 * ((x + y) / WORD));
  }

  lemma SameMod(a: int, b: int, k: int)
    requires a == b + k * WORD
    ensures a % WORD == b % WORD
  {
  }

  lemma {:induction false} HashAppend(gear: Gear, a: seq<byte>, b: seq<byte>)
    ensures Hash(gear, a + b) == (Shifted(Hash(gear, a), |b|) + Hash(gear, b)) % WORD
  {
    if b == [] {
      assert a + b == a;
    } else {
      var b' := b[..|b| - 1];
      HashAppend(gear, a, b');
      assert (a + b)[..|a + b| - 1] == a + b';
      AbsorbSum(gear, Shifted(Hash(gear, a), |b'|), Hash(gear, b'), b[|b| - 1]);
    }
  }

  lemma {:induction false} ShiftedIsProduct(h: nat, k: nat)
    requires h < WORD
    ensures Shifted(h, k) == h * Pow2(k) % WORD
  {
    if k > 0 {
      ShiftedIsProduct(h, k - 1);
      DoubleMod(h * Pow2(k - 1));
      TimesTwo(h, Pow2(k - 1));
    }
  }

  lemma TimesTwo(h: nat, p: nat)
    ensures h * (2 * p) == 2 * (h * p)
  {
  }

  lemma DoubleMod(x: nat)
    ensures 2 * (x % WORD) % WORD == 2 * x % WORD
  {
  }

  lemma ShiftedWord(h: nat)
    requires h < WORD
    ensures Shifted(h, 64) == 0
  {
    hide Shifted, Pow2;
    ShiftedIsProduct(h, 64);
    WordIsPow2();
    assert h * WORD % WORD == 0;
  }

  lemma {:induction false} ShiftedOut(h: nat, k: nat)
    requires h < WORD && k >= 64
    ensures Shifted(h, k) == 0
  {
    if k == 64 {
      ShiftedWord(h);
    } else {
      ShiftedOut(h, k - 1);
    }
  }

  /** The window is 64 bytes: everything hashed before the last 64 bytes has been shifted out. */
  lemma HashIsLocal(gear: Gear, a: seq<byte>, b: seq<byte>)
    requires |b| >= 64
    ensures Hash(gear, a + b) == Hash(gear, b)
  {
    HashAppend(gear, a, b);
    ShiftedOut(Hash(gear, a), |b|);
  }

  /** `h & topMask(k) == 0`. */
  predicate TopBitsClear(h: nat, k: nat)
    requires k <= 64
  {
    h < Pow2(64 - k)
  }

  /** A hash the strict mask accepts, the loose one accepts too. */
  lemma MasksNest(h: nat, strict: nat, loose: nat)
    requires loose <= strict <= 64
    requires TopBitsClear(h, strict)
    ensures TopBitsClear(h, loose)
  {
    Pow2Grows(64 - strict, 64 - loose);
  }
}
