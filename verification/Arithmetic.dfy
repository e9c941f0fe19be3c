/** The few facts about division the fixed-width formats need. */
module Arithmetic {

  lemma WholeParts(a: nat, b: nat, recLen: nat)
    requires recLen > 0 && a % recLen == 0
    ensures (a + b) % recLen == b % recLen
    ensures a >= b ==> (b % recLen == 0 ==> (a - b) % recLen == 0)
  {
    var q := a / recLen;
    assert a == q * recLen;
    ModShift(b, q, recLen);
    if a >= b && b % recLen == 0 {
      var p := b / recLen;
      assert a - b == (q - p) * recLen by {
        assert q * recLen - p * recLen == (q - p) * recLen;
      }
      ModShift(0, q - p, recLen);
    }
  }

  lemma ModShift(b: nat, q: int, m: nat)
    requires m > 0
    ensures (b + q * m) % m == b % m
  {
    var r, p := b % m, b / m;
    assert b + q * m == (p + q) * m + r;
    ModUnique((p + q) * m + r, p + q, r, m);
  }

  lemma ModUnique(x: int, q: int, r: nat, m: nat)
    requires r < m && x == q * m + r
    ensures x % m == r && x / m == q
  {
    var d := x / m - q;
    assert x == x / m * m + x % m;
    assert d * m == r - x % m;
    MultipleIsFar(d, m);
  }

  lemma MultipleIsFar(d: int, m: nat)
    ensures d >= 1 ==> d * m >= m
    ensures d <= -1 ==> d * m + m <= 0
  {
  }

  lemma CountExact(n: nat, w: nat)
    requires w > 0
    ensures n * w / w == n && n * w % w == 0
  {
    ModUnique(n * w, n, 0, w);
  }
}
