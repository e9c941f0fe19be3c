/** One bit per position, packed into 64-bit words. */
module BitMarks {
  import opened Arithmetic
  import opened Powers

  const WORD_BITS := 64

  /** Bit b of w. */
  predicate HasBit(w: nat, b: nat) {
    if b == 0 then w % 2 == 1 else HasBit(w / 2, b - 1)
  }

  /** w | 1 << b. */
  function WithBit(w: nat, b: nat): nat {
    if b == 0 then w / 2 * 2 + 1 else WithBit(w / 2, b - 1) * 2 + w % 2
  }

  lemma {:induction false} BitSet(w: nat, a: nat, b: nat)
    ensures HasBit(WithBit(w, a), b) <==> HasBit(w, b) || a == b
  {
    if a > 0 && b > 0 {
      BitSet(w / 2, a - 1, b - 1);
    }
  }

  /** The test is of that bit, and setting it adds its worth if it was not set. */
  lemma {:induction false} BitWorth(w: nat, b: nat)
    ensures (HasBit(w, b) <==> Bit(w, b)) && WithBit(w, b) == if Bit(w, b) then w else w + Pow2(b)
  {
    assert Pow2(0) == 1;
    if b > 0 {
      BitWorth(w / 2, b - 1);
      HalfThen(w, Pow2(b - 1));
    }
  }

  lemma HalfThen(w: nat, p: nat)
    requires p > 0
    ensures w / (2 * p) == w / 2 / p
  {
    var q, r := w / 2 / p, w / 2 % p;
    assert w == q * (2 * p) + (2 * r + w % 2) by {
      assert w / 2 == q * p + r;
      assert q * (2 * p) == 2 * (q * p);
    }
    ModUnique(w, q, 2 * r + w % 2, 2 * p);
  }

  /** Setting a bit below the width stays within it. */
  lemma {:induction false} BitFits(w: nat, a: nat, width: nat)
    requires a < width && w < Pow2(width)
    ensures WithBit(w, a) < Pow2(width)
  {
    if a > 0 {
      BitFits(w / 2, a - 1, width - 1);
    }
  }

  lemma {:induction false} NoBits(b: nat)
    ensures !HasBit(0, b)
  {
    if b > 0 {
      NoBits(b - 1);
    }
  }

  /** What 64 bits hold. */
  ghost predicate Words(words: seq<nat>) {
    forall i :: 0 <= i < |words| ==> words[i] < 0x1_0000_0000_0000_0000
  }

  predicate Marked(words: seq<nat>, at: nat)
    requires at / WORD_BITS < |words|
  {
    HasBit(words[at / WORD_BITS], at % WORD_BITS)
  }

  function Mark(words: seq<nat>, at: nat): (marked: seq<nat>)
    requires at / WORD_BITS < |words|
    ensures |marked| == |words|
  {
    var w := at / WORD_BITS;
    words[w := WithBit(words[w], at % WORD_BITS)]
  }

  function WordsFor(n: nat): nat {
    (n + WORD_BITS - 1) / WORD_BITS
  }

  /** As many words as it takes to hold n bits. */
  lemma WordsEnough(n: nat)
    ensures n <= 64 * WordsFor(n) < n + 64
  {
  }

  /** Every position below n has its word. */
  lemma WordsReach(n: nat, at: nat)
    requires at < n
    ensures at / WORD_BITS < WordsFor(n)
  {
  }

  function Unmarked(n: nat): (words: seq<nat>)
    ensures |words| == WordsFor(n)
  {
    seq(WordsFor(n), _ => 0)
  }

  lemma NothingMarked(n: nat, at: nat)
    requires at / WORD_BITS < WordsFor(n)
    ensures !Marked(Unmarked(n), at)
  {
    NoBits(at % WORD_BITS);
  }

  /** The words stay 64 bits wide. */
  lemma WordsKept(words: seq<nat>, at: nat)
    requires Words(words) && at / WORD_BITS < |words|
    ensures Words(Mark(words, at))
  {
    hide WithBit, Pow2;
    WordIsPow2();
    BitFits(words[at / WORD_BITS], at % WORD_BITS, 64);
  }

  lemma UnmarkedWords(n: nat)
    ensures Words(Unmarked(n))
  {
    hide Pow2;
  }

  /** Marking one position marks that position alone, whatever word it shares. */
  lemma MarkSetsOne(words: seq<nat>, at: nat, k: nat)
    requires at / WORD_BITS < |words| && k / WORD_BITS < |words|
    ensures Marked(Mark(words, at), k) <==> Marked(words, k) || k == at
  {
    hide HasBit, WithBit;
    BitSet(words[at / WORD_BITS], at % WORD_BITS, k % WORD_BITS);
    SamePlace(at, k);
  }

  /** Position k is bit k mod 64 of word k div 64, and marking it changes that word alone. */
  lemma MarkedWhere(words: seq<nat>, k: nat)
    requires k / 64 < |words|
    ensures Marked(words, k) <==> Bit(words[k / 64], k % 64)
    ensures Mark(words, k) ==
            words[k / 64 := if Bit(words[k / 64], k % 64) then words[k / 64] else words[k / 64] + Pow2(k % 64)]
  {
    hide HasBit, WithBit;
    BitWorth(words[k / 64], k % 64);
  }

  lemma SamePlace(a: nat, b: nat)
    ensures a == b <==> a / WORD_BITS == b / WORD_BITS && a % WORD_BITS == b % WORD_BITS
  {
  }
}
