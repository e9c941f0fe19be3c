/**
  The orders a catalog's arrays are kept in, and sort.Slice as a contract: the same elements,
  sorted, ties in any order.  With distinct keys there is only one such arrangement.
 */
module SortKeys {
  import opened Bytes

  /** Every array sorts on an inode, then a position or a name; the unused parts stay constant. */
  datatype SortKey = SortKey(inode: int, idx: nat, name: Bytes)

  predicate Before(a: SortKey, b: SortKey) {
    || a.inode < b.inode
    || (a.inode == b.inode && (a.idx < b.idx || (a.idx == b.idx && Less(a.name, b.name))))
  }

  lemma BeforeTotal(a: SortKey, b: SortKey)
    ensures Before(a, b) || a == b || Before(b, a)
    ensures !(Before(a, b) && Before(b, a)) && !Before(a, a)
  {
    LessTotal(a.name, b.name);
    LessIrreflexive(a.name);
    if Less(a.name, b.name) {
      LessAsymmetric(a.name, b.name);
    }
  }

  lemma BeforeTransitive(a: SortKey, b: SortKey, c: SortKey)
    requires Before(a, b) && Before(b, c)
    ensures Before(a, c)
  {
    if Less(a.name, b.name) && Less(b.name, c.name) {
      LessTransitive(a.name, b.name, c.name);
    }
  }

  lemma NotBeforeTransitive(a: SortKey, b: SortKey, c: SortKey)
    requires !Before(b, a) && !Before(c, b)
    ensures !Before(c, a)
  {
    BeforeTotal(a, b);
    BeforeTotal(b, c);
    BeforeTotal(a, c);
    if Before(a, b) && Before(b, c) {
      BeforeTransitive(a, b, c);
    }
  }

  /** The same order with names by their bytes: inode, then position, then the first byte that differs. */
  ghost predicate KeyPrecedes(a: SortKey, b: SortKey) {
    || a.inode < b.inode
    || (a.inode == b.inode && (a.idx < b.idx || (a.idx == b.idx && Precedes(a.name, b.name))))
  }

  lemma BeforeExactly(a: SortKey, b: SortKey)
    ensures Before(a, b) <==> KeyPrecedes(a, b)
  {
    LessExactly(a.name, b.name);
  }

  ghost predicate Sorted<T>(s: seq<T>, key: T -> SortKey) {
    forall i, j :: 0 <= i < j < |s| ==> !Before(key(s[j]), key(s[i]))
  }

  ghost predicate DistinctKeys<T>(s: seq<T>, key: T -> SortKey) {
    forall i, j :: 0 <= i < j < |s| ==> key(s[i]) != key(s[j])
  }

  ghost predicate Ascending<T>(s: seq<T>, key: T -> SortKey) {
    forall i, j :: 0 <= i < j < |s| ==> Before(key(s[i]), key(s[j]))
  }

  ghost predicate IsSortOf<T>(sorted: seq<T>, s: seq<T>, key: T -> SortKey) {
    Sorted(sorted, key) && multiset(sorted) == multiset(s)
  }

  method Insert<T>(s: seq<T>, x: T, key: T -> SortKey) returns (longer: seq<T>)
    requires Sorted(s, key)
    ensures IsSortOf(longer, s + [x], key)
  {
    hide Before;
    var i := |s|;
    while i > 0 && Before(key(x), key(s[i - 1]))
      invariant 0 <= i <= |s|
      invariant forall k :: i <= k < |s| ==> !Before(key(s[k]), key(x))
    {
      i := i - 1;
      BeforeTotal(key(x), key(s[i]));
    }
    forall k | 0 <= k < i
      ensures !Before(key(x), key(s[k]))
    {
      if k < i - 1 {
        NotBeforeTransitive(key(s[k]), key(s[i - 1]), key(x));
      }
    }
    longer := s[..i] + [x] + s[i..];
    SplicedBag(s, i, x);
  }

  /** Stands for sort.Slice: callers may rely on IsSortOf and nothing else. */
  method SortSlice<T>(s: seq<T>, key: T -> SortKey) returns (sorted: seq<T>)
    ensures IsSortOf(sorted, s, key)
  {
    sorted := [];
    for i := 0 to |s|
      invariant IsSortOf(sorted, s[..i], key)
    {
      sorted := Insert(sorted, s[i], key);
      assert s[..i + 1] == s[..i] + [s[i]];
    }
    assert s[..|s|] == s;
  }

  lemma DistinctPermuted<T>(a: seq<T>, b: seq<T>, key: T -> SortKey)
    requires multiset(a) == multiset(b) && DistinctKeys(a, key)
    ensures DistinctKeys(b, key)
  {
    forall i, j | 0 <= i < j < |b|
      ensures key(b[i]) != key(b[j])
    {
      assert b[i] in multiset(a) && b[j] in multiset(a);
      var p :| 0 <= p < |a| && a[p] == b[i];
      var q :| 0 <= q < |a| && a[q] == b[j];
      if p == q {
        TwiceInMultiset(b, i, j);
        OnceInMultiset(a, p, key);
      } else {
        assert key(a[p]) != key(a[q]);
      }
    }
  }

  lemma TwiceInMultiset<T>(s: seq<T>, i: nat, j: nat)
    requires i < j < |s| && s[i] == s[j]
    ensures multiset(s)[s[i]] >= 2
  {
    assert s == s[..i] + ([s[i]] + (s[i + 1..j] + ([s[j]] + s[j + 1..])));
  }

  lemma OnceInMultiset<T>(s: seq<T>, p: nat, key: T -> SortKey)
    requires DistinctKeys(s, key) && p < |s|
    ensures multiset(s)[s[p]] == 1
  {
    assert s == s[..p] + ([s[p]] + s[p + 1..]);
    assert s[p] !in s[..p] && s[p] !in s[p + 1..];
  }

  lemma SortedDistinctAscends<T>(s: seq<T>, key: T -> SortKey)
    requires Sorted(s, key) && DistinctKeys(s, key)
    ensures Ascending(s, key)
  {
    forall i, j | 0 <= i < j < |s|
      ensures Before(key(s[i]), key(s[j]))
    {
      BeforeTotal(key(s[i]), key(s[j]));
    }
  }

  /** Distinct keys leave a sort no choice: two sorted arrangements of the same elements are equal. */
  lemma {:induction false} SortIsUnique<T>(a: seq<T>, b: seq<T>, key: T -> SortKey)
    requires multiset(a) == multiset(b) && Ascending(a, key) && Ascending(b, key)
    ensures a == b
  {
    hide Before;
    if a == [] {
      assert |multiset(b)| == 0;
    } else {
      assert |multiset(a)| == |multiset(b)|;
      SameFirst(a, b, key);
      TailMultiset(a);
      TailMultiset(b);
      AscendingTail(a, key);
      AscendingTail(b, key);
      SortIsUnique(a[1..], b[1..], key);
      assert a == [a[0]] + a[1..] && b == [b[0]] + b[1..];
    }
  }

  lemma TailMultiset<T>(s: seq<T>)
    requires s != []
    ensures multiset(s[1..]) == multiset(s) - multiset{s[0]}
  {
    assert s == [s[0]] + s[1..];
  }

  lemma AscendingTail<T>(s: seq<T>, key: T -> SortKey)
    requires s != [] && Ascending(s, key)
    ensures Ascending(s[1..], key)
  {
  }

  lemma SameFirst<T>(a: seq<T>, b: seq<T>, key: T -> SortKey)
    requires multiset(a) == multiset(b) && Ascending(a, key) && Ascending(b, key) && a != [] && b != []
    ensures a[0] == b[0]
  {
    assert a[0] in multiset(b) && b[0] in multiset(a);
    var q :| 0 <= q < |b| && b[q] == a[0];
    var p :| 0 <= p < |a| && a[p] == b[0];
    if q > 0 && p > 0 {
      BeforeTotal(key(a[0]), key(b[0]));
    }
  }

  // ---------- When a sort has no choice ----------

  /** Elements with one key are one element, however often it is there. */
  ghost predicate EqualTies<T>(s: seq<T>, key: T -> SortKey) {
    forall i, j :: 0 <= i < j < |s| && key(s[i]) == key(s[j]) ==> s[i] == s[j]
  }

  lemma SameMembers<T>(a: seq<T>, b: seq<T>, i: nat) returns (j: nat)
    requires multiset(a) == multiset(b) && i < |a|
    ensures j < |b| && b[j] == a[i]
  {
    assert a[i] in multiset(b);
    j :| 0 <= j < |b| && b[j] == a[i];
  }

  lemma TiesPermuted<T>(a: seq<T>, b: seq<T>, key: T -> SortKey)
    requires multiset(a) == multiset(b) && EqualTies(a, key)
    ensures EqualTies(b, key)
  {
    forall i, j | 0 <= i < j < |b| && key(b[i]) == key(b[j])
      ensures b[i] == b[j]
    {
      var p := SameMembers(b, a, i);
      var q := SameMembers(b, a, j);
    }
  }

  /** Then two sorted arrangements of the same elements are equal. */
  lemma {:induction false} TiedSortIsUnique<T>(a: seq<T>, b: seq<T>, key: T -> SortKey)
    requires multiset(a) == multiset(b) && Sorted(a, key) && Sorted(b, key) && EqualTies(a, key)
    ensures a == b
  {
    hide Before;
    if a == [] {
      assert |multiset(b)| == 0;
    } else {
      assert |multiset(a)| == |multiset(b)|;
      SameTiedFirst(a, b, key);
      TailMultiset(a);
      TailMultiset(b);
      TiedSortIsUnique(a[1..], b[1..], key);
      assert a == [a[0]] + a[1..] && b == [b[0]] + b[1..];
    }
  }

  lemma SameTiedFirst<T>(a: seq<T>, b: seq<T>, key: T -> SortKey)
    requires multiset(a) == multiset(b) && Sorted(a, key) && Sorted(b, key) && EqualTies(a, key) && a != [] && b != []
    ensures a[0] == b[0]
  {
    hide Before;
    var p := SameMembers(b, a, 0);
    var q := SameMembers(a, b, 0);
    BeforeTotal(key(a[0]), key(b[0]));
    assert p > 0 ==> !Before(key(a[p]), key(a[0]));
    assert q > 0 ==> !Before(key(b[q]), key(b[0]));
  }

  function Exchanged<T>(s: seq<T>, p: nat): (r: seq<T>)
    requires p + 1 < |s|
    ensures |r| == |s|
  {
    s[p := s[p + 1]][p + 1 := s[p]]
  }

  lemma ExchangedParts<T>(s: seq<T>, p: nat)
    requires p + 1 < |s|
    ensures s == s[..p] + [s[p], s[p + 1]] + s[p + 2..]
    ensures Exchanged(s, p) == s[..p] + [s[p + 1], s[p]] + s[p + 2..]
    ensures multiset(Exchanged(s, p)) == multiset(s)
  {
    hide Exchanged;
    var u, v, x, y := s[..p], s[p + 2..], s[p], s[p + 1];
    ExchangedShape(s, p);
    assert multiset([x, y]) == multiset([y, x]);
    assert multiset(u + [x, y] + v) == multiset(u) + multiset([x, y]) + multiset(v);
    assert multiset(u + [y, x] + v) == multiset(u) + multiset([y, x]) + multiset(v);
  }

  lemma ExchangedShape<T>(s: seq<T>, p: nat)
    requires p + 1 < |s|
    ensures s == s[..p] + [s[p], s[p + 1]] + s[p + 2..]
    ensures Exchanged(s, p) == s[..p] + [s[p + 1], s[p]] + s[p + 2..]
  {
    assert forall k :: p + 2 <= k < |s| ==> Exchanged(s, p)[k] == s[k] == s[p + 2..][k - p - 2];
  }

  lemma ExchangedKeys<T>(s: seq<T>, p: nat, key: T -> SortKey)
    requires p + 1 < |s| && key(s[p]) == key(s[p + 1])
    ensures forall k :: 0 <= k < |s| ==> key(Exchanged(s, p)[k]) == key(s[k])
    ensures Exchanged(s, p)[p] == s[p + 1]
  {
  }

  /** Otherwise some sorted neighbours differ under one key, and exchanging them is as good a sort. */
  lemma UnequalTies<T>(s: seq<T>, key: T -> SortKey) returns (p: nat)
    requires Sorted(s, key) && !EqualTies(s, key)
    ensures p + 1 < |s| && key(s[p]) == key(s[p + 1]) && s[p] != s[p + 1]
    ensures IsSortOf(Exchanged(s, p), s, key) && Exchanged(s, p) != s
  {
    hide Before, Exchanged;
    var i, j :| 0 <= i < j < |s| && key(s[i]) == key(s[j]) && s[i] != s[j];
    p := i;
    while s[p + 1] == s[p]
      invariant i <= p < j && s[p] == s[i]
      decreases j - p
    {
      p := p + 1;
    }
    BeforeTotal(key(s[p]), key(s[p + 1]));
    assert key(s[p]) == key(s[j]);
    assert !Before(key(s[p + 1]), key(s[p]));
    assert p + 1 < j ==> !Before(key(s[j]), key(s[p + 1]));
    ExchangedParts(s, p);
    ExchangedKeys(s, p, key);
  }

  /** What Finish's sorts yield for distinct keys, whatever order the records were added in. */
  lemma SortsAgree<T>(s: seq<T>, a: seq<T>, t: seq<T>, b: seq<T>, key: T -> SortKey)
    requires multiset(s) == multiset(t) && DistinctKeys(s, key)
    requires IsSortOf(a, s, key) && IsSortOf(b, t, key)
    ensures a == b && Ascending(a, key)
  {
    DistinctPermuted(s, a, key);
    DistinctPermuted(s, b, key);
    SortedDistinctAscends(a, key);
    SortedDistinctAscends(b, key);
    SortIsUnique(a, b, key);
  }
}
