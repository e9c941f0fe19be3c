/**
  The heap of runs a k-way merge keeps: each run is what it has left to give, first record first,
  and the heap orders runs by the key of that first record.
 */
module MergeHeap {
  import opened Bytes
  import opened Records

  /** Whatever one run still holds; a run in the heap is never empty. */
  type Run = seq<Bytes>

  /** Every record the runs still hold. */
  ghost function Bag(runs: seq<Run>): multiset<Bytes> {
    if runs == [] then multiset{} else Bag(runs[..|runs| - 1]) + multiset(runs[|runs| - 1])
  }

  lemma {:induction false} BagAppend(a: seq<Run>, b: seq<Run>)
    ensures Bag(a + b) == Bag(a) + Bag(b)
  {
    if b == [] {
      assert a + b == a;
    } else {
      assert (a + b)[..|a + b| - 1] == a + b[..|b| - 1];
      BagAppend(a, b[..|b| - 1]);
    }
  }

  ghost function Without(runs: seq<Run>, i: nat): seq<Run>
    requires i < |runs|
  {
    runs[..i] + runs[i + 1..]
  }

  lemma BagOne(run: Run)
    ensures Bag([run]) == multiset(run)
  {
    assert [run][..0] == [];
  }

  lemma BagAround(runs: seq<Run>, i: nat)
    requires i < |runs|
    ensures Bag(runs) == Bag(Without(runs, i)) + multiset(runs[i])
  {
    hide Bag;
    var before, one, after := runs[..i], [runs[i]], runs[i + 1..];
    assert runs == before + (one + after);
    BagAppend(before, one + after);
    BagAppend(one, after);
    BagAppend(before, after);
    BagOne(runs[i]);
  }

  lemma WithoutMultiset(runs: seq<Run>, i: nat)
    requires i < |runs|
    ensures multiset(Without(runs, i)) == multiset(runs) - multiset{runs[i]}
  {
    assert runs == runs[..i] + ([runs[i]] + runs[i + 1..]);
  }

  /** The bag depends on which runs there are, not on their order. */
  lemma {:induction false} BagPermuted(a: seq<Run>, b: seq<Run>)
    requires multiset(a) == multiset(b)
    ensures Bag(a) == Bag(b)
    decreases |a|
  {
    hide Bag;
    if a == [] {
      assert |multiset(b)| == 0;
    } else {
      assert a[0] in multiset(a);
      var i :| 0 <= i < |b| && b[i] == a[0];
      WithoutMultiset(a, 0);
      WithoutMultiset(b, i);
      BagPermuted(Without(a, 0), Without(b, i));
      BagAround(a, 0);
      BagAround(b, i);
    }
  }

  lemma {:induction false} InBag(runs: seq<Run>, rec: Bytes)
    ensures rec in Bag(runs) <==> exists i :: 0 <= i < |runs| && rec in runs[i]
  {
    if runs != [] {
      var n := |runs| - 1;
      InBag(runs[..n], rec);
      if rec in Bag(runs[..n]) {
        var i :| 0 <= i < n && rec in runs[..n][i];
        assert rec in runs[i];
      }
      assert rec in multiset(runs[n]) <==> rec in runs[n];
    }
  }

  ghost predicate Live(runs: seq<Run>) {
    forall i :: 0 <= i < |runs| ==> runs[i] != []
  }

  ghost predicate AllSorted(runs: seq<Run>, keyLen: nat) {
    forall i :: 0 <= i < |runs| ==> SortedByKey(runs[i], keyLen)
  }

  /** The first record of one run sorts no later than that of another. */
  ghost predicate HeadAtMost(a: Run, b: Run, keyLen: nat)
    requires a != [] && b != []
  {
    KeyAtMost(a[0], b[0], keyLen)
  }

  function Parent(j: nat): nat
    requires j > 0
  {
    (j - 1) / 2
  }

  /** The run at j sorts no earlier than its parent. */
  ghost predicate InOrder(runs: seq<Run>, keyLen: nat, j: nat)
    requires 0 < j < |runs| && Live(runs)
  {
    HeadAtMost(runs[Parent(j)], runs[j], keyLen)
  }

  /** Heap order among the first n runs, for parents at `from` and later. */
  ghost predicate Heaped(runs: seq<Run>, keyLen: nat, from: nat, n: nat)
    requires n <= |runs| && Live(runs)
  {
    forall j: nat :: 0 < j < n && Parent(j) >= from ==> InOrder(runs, keyLen, j)
  }

  lemma HeadTransitive(a: Run, b: Run, c: Run, keyLen: nat)
    requires a != [] && b != [] && c != []
    requires HeadAtMost(a, b, keyLen) && HeadAtMost(b, c, keyLen)
    ensures HeadAtMost(a, c, keyLen)
  {
    AtMostTransitive(Key(a[0], keyLen), Key(b[0], keyLen), Key(c[0], keyLen));
  }

  lemma {:induction false} RootIsLeast(runs: seq<Run>, keyLen: nat, n: nat, j: nat)
    requires n <= |runs| && Live(runs) && Heaped(runs, keyLen, 0, n) && j < n
    ensures HeadAtMost(runs[0], runs[j], keyLen)
  {
    if j > 0 {
      assert InOrder(runs, keyLen, j);
      RootIsLeast(runs, keyLen, n, Parent(j));
      HeadTransitive(runs[0], runs[Parent(j)], runs[j], keyLen);
    }
  }

  /** The head of the root run is the least record of all. */
  lemma RootHeadIsLeast(runs: seq<Run>, keyLen: nat, rec: Bytes)
    requires Live(runs) && AllSorted(runs, keyLen) && runs != []
    requires Heaped(runs, keyLen, 0, |runs|) && rec in Bag(runs)
    ensures KeyAtMost(runs[0][0], rec, keyLen)
  {
    InBag(runs, rec);
    var i :| 0 <= i < |runs| && rec in runs[i];
    var k :| 0 <= k < |runs[i]| && runs[i][k] == rec;
    RootIsLeast(runs, keyLen, |runs|, i);
    assert k > 0 ==> KeyAtMost(runs[i][0], runs[i][k], keyLen);
    AtMostTransitive(Key(runs[0][0], keyLen), Key(runs[i][0], keyLen), Key(rec, keyLen));
  }

  // ---------- Sifting down ----------

  function Swapped<T>(s: seq<T>, i: nat, j: nat): (r: seq<T>)
    requires i < |s| && j < |s|
    ensures |r| == |s|
  {
    s[i := s[j]][j := s[i]]
  }

  lemma SwappedPermutes<T>(s: seq<T>, i: nat, j: nat)
    requires i < |s| && j < |s|
    ensures multiset(Swapped(s, i, j)) == multiset(s)
  {
  }

  /**
    Sifting at i: heap order holds for every parent from i0 on except i itself, and the parent of
    i is no later than i's children.
   */
  ghost predicate Sifting(runs: seq<Run>, keyLen: nat, i0: nat, i: nat, n: nat)
    requires n <= |runs| && Live(runs)
  {
    && i0 <= i
    && (forall j: nat :: 0 < j < n && Parent(j) >= i0 && Parent(j) != i ==> InOrder(runs, keyLen, j))
    && (0 < i < n && Parent(i) >= i0 ==>
          forall j: nat :: 0 < j < n && Parent(j) == i ==> HeadAtMost(runs[Parent(i)], runs[j], keyLen))
  }

  /** Swapping i with its earlier child j leaves only j to sift. */
  lemma SiftStep(runs: seq<Run>, keyLen: nat, i0: nat, i: nat, j: nat, n: nat)
    requires n <= |runs| && Live(runs) && Sifting(runs, keyLen, i0, i, n)
    requires i < j < n && Parent(j) == i
    requires HeadAtMost(runs[j], runs[i], keyLen)
    requires forall k: nat :: 0 < k < n && Parent(k) == i ==> HeadAtMost(runs[j], runs[k], keyLen)
    ensures Live(Swapped(runs, i, j)) && Sifting(Swapped(runs, i, j), keyLen, i0, j, n)
  {
    var s := Swapped(runs, i, j);
    forall k: nat | 0 < k < n && Parent(k) >= i0 && Parent(k) != j
      ensures InOrder(s, keyLen, k)
    {
      if k == i {
        assert HeadAtMost(runs[Parent(i)], runs[j], keyLen);
      } else if Parent(k) == i {
        assert s[i] == runs[j];
      } else {
        assert InOrder(runs, keyLen, k);
      }
    }
    forall k: nat | 0 < k < n && Parent(k) == j
      ensures HeadAtMost(s[Parent(j)], s[k], keyLen)
    {
      assert InOrder(runs, keyLen, k);
    }
  }

  /** No child of i sorts before i: the sift is over. */
  lemma SiftEnds(runs: seq<Run>, keyLen: nat, i0: nat, i: nat, n: nat)
    requires n <= |runs| && Live(runs) && Sifting(runs, keyLen, i0, i, n)
    requires forall k: nat :: 0 < k < n && Parent(k) == i ==> HeadAtMost(runs[i], runs[k], keyLen)
    ensures Heaped(runs, keyLen, i0, n)
  {
  }
}
