/** sort.Search, written out. */
module BinarySearch {

  ghost predicate Monotone(n: nat, f: nat -> bool) {
    forall j: nat, k: nat :: j <= k < n && f(j) ==> f(k)
  }

  /** Where a search of [lo, hi) ends up, whatever f is. */
  ghost function Landing(lo: nat, hi: nat, f: nat -> bool): nat
    decreases hi - lo
  {
    if lo >= hi then lo
    else
      var h := (lo + hi) / 2;
      if f(h) then Landing(lo, h, f) else Landing(h + 1, hi, f)
  }

  lemma {:induction false} SameLanding(lo: nat, hi: nat, f: nat -> bool, g: nat -> bool)
    requires forall k: nat :: k < hi ==> f(k) == g(k)
    ensures Landing(lo, hi, f) == Landing(lo, hi, g)
    decreases hi - lo
  {
    if lo < hi {
      var h := (lo + hi) / 2;
      SameLanding(lo, h, f, g);
      SameLanding(h + 1, hi, f, g);
    }
  }

  /**
    The index found sits between a no and a yes whatever f is; when f turns from no to yes only
    once, it is the first yes.
   */
  method Search(n: nat, f: nat -> bool) returns (i: nat)
    ensures i == Landing(0, n, f)
    ensures i <= n && (i > 0 ==> !f(i - 1)) && (i < n ==> f(i))
    ensures Monotone(n, f) ==> forall j: nat :: j < n ==> (f(j) <==> i <= j)
  {
    i := 0;
    var j := n;
    while i < j
      invariant i <= j <= n && (i > 0 ==> !f(i - 1)) && (j < n ==> f(j))
      invariant Landing(i, j, f) == Landing(0, n, f)
    {
      var h := (i + j) / 2;
      if !f(h) {
        i := h + 1;
      } else {
        j := h;
      }
    }
  }
}
