/** The merge stream and the sorter that feeds it. */
module ExtMerge {
  import opened Arithmetic
  import opened Bytes
  import opened Records
  import opened MergeHeap
  import opened ExtSort

  ghost predicate Distinct(cs: seq<Cursor>) {
    forall i, j :: 0 <= i < j < |cs| ==> cs[i] != cs[j]
  }

  lemma DistinctPermuted(a: seq<Cursor>, b: seq<Cursor>)
    requires multiset(a) == multiset(b) && Distinct(a)
    ensures Distinct(b) && forall c :: c in b <==> c in a
  {
    assert forall c :: c in b <==> c in multiset(b);
    assert forall c :: c in a <==> c in multiset(a);
    forall i, j | 0 <= i < j < |b|
      ensures b[i] != b[j]
    {
      if b[i] == b[j] {
        assert b == b[..i] + ([b[i]] + (b[i + 1..j] + ([b[j]] + b[j + 1..])));
        assert multiset(b)[b[i]] >= 2;
        DistinctOnce(a, b[i]);
      }
    }
  }

  lemma {:induction false} DistinctOnce(a: seq<Cursor>, c: Cursor)
    requires Distinct(a)
    ensures multiset(a)[c] <= 1
  {
    if a != [] {
      DistinctOnce(a[1..], c);
      assert a == [a[0]] + a[1..];
      if a[0] == c {
        assert c !in a[1..];
      }
    }
  }

  /** The runs a heap of cursors stands for are live, sorted and in heap order. */
  ghost predicate GoodHeap(cs: seq<Cursor>, recLen: pos, keyLen: nat)
    reads cs
  {
    && Distinct(cs) && AllLive(cs)
    && (forall i :: 0 <= i < |cs| ==> cs[i].recLen == recLen)
    && Live(Runs(cs)) && AllSorted(Runs(cs), keyLen) && Heaped(Runs(cs), keyLen, 0, |cs|)
  }

  lemma {:induction false} SortedPermuted(a: seq<Run>, b: seq<Run>, keyLen: nat)
    requires multiset(a) == multiset(b) && AllSorted(a, keyLen)
    ensures AllSorted(b, keyLen)
  {
    forall i | 0 <= i < |b|
      ensures SortedByKey(b[i], keyLen)
    {
      assert b[i] in multiset(a);
      var k :| 0 <= k < |a| && a[k] == b[i];
    }
  }

  /** What sifting must restore once the root alone is out of place. */
  lemma RearrangedGood(cs: seq<Cursor>, cs0: seq<Cursor>, recLen: pos, keyLen: nat, n: nat)
    requires Rearranged(cs, cs0, n) && n == |cs| && AllLive(cs) && Distinct(cs0)
    requires forall i :: 0 <= i < |cs0| ==> cs0[i].recLen == recLen
    requires AllSorted(Runs(cs0), keyLen)
    requires Live(Runs(cs)) && Heaped(Runs(cs), keyLen, 0, n)
    ensures GoodHeap(cs, recLen, keyLen) && Bag(Runs(cs)) == Bag(Runs(cs0))
    ensures forall c :: c in cs <==> c in cs0
  {
    hide Bag, Runs, Heaped;
    DistinctPermuted(cs0, cs);
    SortedPermuted(Runs(cs0), Runs(cs), keyLen);
    BagPermuted(Runs(cs), Runs(cs0));
    forall i | 0 <= i < |cs|
      ensures cs[i].recLen == recLen
    {
      assert cs[i] in cs0;
    }
  }

  /** Records in key order: from memory when nothing was spilled, from the heap of runs otherwise. */
  class Merged {
    const recLen: pos
    const keyLen: nat
    var mem: Option<Bytes>
    var at: nat
    var heap: seq<Cursor>
    /** A read error ended the merge early. */
    var failed: bool

    constructor InMemory(recLen: pos, keyLen: nat, sorted: Bytes)
      requires Whole(sorted, recLen) && SortedByKey(Split(sorted, recLen), keyLen)
      ensures Valid() && Pending() == multiset(Split(sorted, recLen)) && !failed && heap == []
      ensures mem == Some(sorted) && at == 0 && this.recLen == recLen && this.keyLen == keyLen
    {
      this.recLen := recLen;
      this.keyLen := keyLen;
      this.mem := Some(sorted);
      this.at := 0;
      this.heap := [];
      this.failed := false;
      new;
      assert sorted[0..] == sorted;
    }

    constructor OverRuns(recLen: pos, keyLen: nat, heap: seq<Cursor>)
      requires GoodHeap(heap, recLen, keyLen)
      ensures Valid() && Pending() == Bag(Runs(heap)) && !failed && mem.None?
      ensures this.heap == heap && this.recLen == recLen && this.keyLen == keyLen
    {
      hide GoodHeap, Bag, Runs;
      this.recLen := recLen;
      this.keyLen := keyLen;
      this.mem := None;
      this.at := 0;
      this.heap := heap;
      this.failed := false;
    }

    ghost predicate Valid()
      reads this, heap
    {
      && (mem.Some? ==>
            && heap == [] && at <= |mem.value| && Whole(mem.value[at..], recLen)
            && SortedByKey(Split(mem.value[at..], recLen), keyLen))
      && (!failed ==> GoodHeap(heap, recLen, keyLen))
    }

    /** Every record not yet handed out. */
    ghost function Pending(): multiset<Bytes>
      requires Valid()
      reads this, heap
    {
      if mem.Some? then multiset(Split(mem.value[at..], recLen)) else Bag(Runs(heap))
    }

    /** The next record in key order. */
    method Next() returns (rec: Option<Bytes>)
      requires Valid()
      modifies this, heap
      ensures Valid() && forall c :: c in heap ==> c in old(heap)
      ensures rec.Some? ==>
        && !failed && !old(failed)
        && rec.value in old(Pending()) && Pending() == old(Pending()) - multiset{rec.value}
        && forall r :: r in old(Pending()) ==> KeyAtMost(rec.value, r, keyLen)
      ensures rec.None? && !failed ==> Pending() == old(Pending()) == multiset{}
      ensures old(failed) ==> failed
      ensures old(!failed && Sturdy(heap)) ==> !failed && Sturdy(heap)
    {
      if failed {
        return None;
      }
      if mem.Some? {
        rec := NextInMemory();
        return;
      }
      if heap == [] {
        return None;
      }
      rec := NextInHeap();
    }

    method NextInMemory() returns (rec: Option<Bytes>)
      requires Valid() && mem.Some? && !failed
      modifies this
      ensures Valid() && heap == [] && !failed && mem.Some?
      ensures rec.Some? ==>
        && rec.value in old(Pending()) && Pending() == old(Pending()) - multiset{rec.value}
        && forall r :: r in old(Pending()) ==> KeyAtMost(rec.value, r, keyLen)
      ensures rec.None? ==> Pending() == old(Pending()) == multiset{}
    {
      hide Split, KeyAtMost, Whole, SortedByKey, Bag, GoodHeap;
      ghost var rest := mem.value[at..];
      EmptyHeap(recLen, keyLen);
      if at + recLen > |mem.value| {
        Leftover(rest, recLen);
        return None;
      }
      rec := Some(mem.value[at..at + recLen]);
      at := at + recLen;
      HeadOfSplit(rest, recLen, keyLen);
      assert mem.value[at..] == rest[recLen..] && rec.value == rest[..recLen];
    }

    method NextInHeap() returns (rec: Option<Bytes>)
      requires Valid() && mem.None? && !failed && heap != []
      modifies this, heap
      ensures Valid() && mem.None? && forall c :: c in heap ==> c in old(heap)
      ensures rec.Some? ==>
        && !failed
        && rec.value in old(Pending()) && Pending() == old(Pending()) - multiset{rec.value}
        && forall r :: r in old(Pending()) ==> KeyAtMost(rec.value, r, keyLen)
      ensures rec.None? ==> failed
      ensures old(Sturdy(heap)) ==> !failed && Sturdy(heap)
    {
      hide Bag, Runs, GoodHeap, Headless, KeyAtMost, Sturdy;
      var cur, ok := AdvanceRoot(heap, recLen, keyLen);
      if !ok {
        failed := true;
        return None;
      }
      ghost var cs := heap;
      heap := Restore(heap, recLen, keyLen);
      StillSturdy(cs, heap);
      rec := Some(cur);
    }
  }

  /** Takes the root run's first record, which is the least of all, and reads on in that run. */
  method AdvanceRoot(cs: seq<Cursor>, recLen: pos, keyLen: nat) returns (cur: Bytes, ok: bool)
    requires GoodHeap(cs, recLen, keyLen) && cs != []
    modifies cs[0]
    ensures cur in old(Bag(Runs(cs))) && forall r :: r in old(Bag(Runs(cs))) ==> KeyAtMost(cur, r, keyLen)
    ensures ok ==>
      && Distinct(cs) && Headless(Runs(cs), keyLen) && Bag(Runs(cs)) == old(Bag(Runs(cs))) - multiset{cur}
      && (forall i :: 0 < i < |cs| ==> cs[i].live) && forall i :: 0 <= i < |cs| ==> cs[i].recLen == recLen
    ensures old(Sturdy(cs)) ==> ok && Sturdy(cs)
  {
    hide Bag, Runs, Heaped, AllSorted, Live, Headless, KeyAtMost, Whole;
    ghost var runs := Runs(cs);
    var top := cs[0];
    RunsLive(cs);
    cur := top.rec;
    HeadTaken(runs, keyLen);
    ghost var left := top.left;
    ok := top.Next();
    if Whole(left, recLen) {
      WholeRest(left, recLen);
    }
    if ok {
      assert forall i :: 0 < i < |cs| ==> cs[i] != top && cs[i].live && cs[i].Holds() == runs[i];
      assert Runs(cs) == Taken(runs);
    }
    assert old(Sturdy(cs)) ==> top.fuse.None? && Whole(top.left, recLen);
  }

  /** Whole records stay whole when one is taken, and are never less than one. */
  lemma WholeRest(left: Bytes, recLen: pos)
    requires Whole(left, recLen)
    ensures left == [] || |left| >= recLen
    ensures |left| >= recLen ==> Whole(left[recLen..], recLen)
  {
    if 0 < |left| < recLen {
      ModUnique(|left|, 0, |left|, recLen);
    }
    if |left| >= recLen {
      WholeTail(left, recLen);
    }
  }

  lemma StillSturdy(cs: seq<Cursor>, some: seq<Cursor>)
    requires forall c :: c in some ==> c in cs
    ensures Sturdy(cs) ==> Sturdy(some)
  {
    forall i | 0 <= i < |some| && Sturdy(cs)
      ensures some[i].fuse.None? && Whole(some[i].left, some[i].recLen)
    {
      assert some[i] in cs;
    }
  }

  /** The runs once the root's first record has been taken. */
  ghost function Taken(runs: seq<Run>): seq<Run>
    requires runs != [] && runs[0] != []
  {
    runs[0 := runs[0][1..]]
  }

  /** A heap whose root may have run dry or be out of place; everything below is as it should be. */
  ghost predicate Headless(runs: seq<Run>, keyLen: nat) {
    && runs != [] && AllSorted(runs, keyLen)
    && (forall i :: 0 < i < |runs| ==> runs[i] != [])
    && (forall j: nat :: 0 < j < |runs| && Parent(j) > 0 ==> HeadsInOrder(runs, keyLen, j))
  }

  /** InOrder for runs some of which may be dry. */
  ghost predicate HeadsInOrder(runs: seq<Run>, keyLen: nat, j: nat)
    requires 0 < j < |runs|
  {
    runs[Parent(j)] != [] && runs[j] != [] && HeadAtMost(runs[Parent(j)], runs[j], keyLen)
  }

  /** Taking the root run's first record takes the least there is. */
  lemma HeadTaken(runs: seq<Run>, keyLen: nat)
    requires runs != [] && Live(runs) && AllSorted(runs, keyLen) && Heaped(runs, keyLen, 0, |runs|)
    ensures runs[0][0] in Bag(runs) && Bag(Taken(runs)) == Bag(runs) - multiset{runs[0][0]}
    ensures forall r :: r in Bag(runs) ==> KeyAtMost(runs[0][0], r, keyLen)
    ensures Headless(Taken(runs), keyLen)
  {
    hide Bag;
    forall r | r in Bag(runs)
      ensures KeyAtMost(runs[0][0], r, keyLen)
    {
      RootHeadIsLeast(runs, keyLen, r);
    }
    HeadLeavesBag(runs);
    HeadLeavesOrder(runs, keyLen);
  }

  lemma HeadLeavesBag(runs: seq<Run>)
    requires runs != [] && runs[0] != []
    ensures runs[0][0] in Bag(runs) && Bag(Taken(runs)) == Bag(runs) - multiset{runs[0][0]}
  {
    hide Bag;
    BagAround(runs, 0);
    BagAround(Taken(runs), 0);
    assert Without(Taken(runs), 0) == Without(runs, 0);
    assert runs[0] == [runs[0][0]] + runs[0][1..];
  }

  lemma HeadLeavesOrder(runs: seq<Run>, keyLen: nat)
    requires runs != [] && Live(runs) && AllSorted(runs, keyLen) && Heaped(runs, keyLen, 0, |runs|)
    ensures Headless(Taken(runs), keyLen)
  {
    var after := Taken(runs);
    forall i, j | 0 <= i < j < |after[0]|
      ensures KeyAtMost(after[0][i], after[0][j], keyLen)
    {
      assert KeyAtMost(runs[0][i + 1], runs[0][j + 1], keyLen);
    }
    assert SortedByKey(after[0], keyLen);
    forall j: nat | 0 < j < |after| && Parent(j) > 0
      ensures HeadsInOrder(after, keyLen, j)
    {
      assert InOrder(runs, keyLen, j);
    }
  }

  lemma HeadlessSifts(runs: seq<Run>, keyLen: nat)
    requires Headless(runs, keyLen) && runs[0] != []
    ensures Live(runs) && Sifting(runs, keyLen, 0, 0, |runs|)
  {
    forall j: nat | 0 < j < |runs| && Parent(j) >= 0 && Parent(j) != 0
      ensures InOrder(runs, keyLen, j)
    {
      assert HeadsInOrder(runs, keyLen, j);
    }
  }

  /** heap.Fix at the root while it is live, heap.Pop once it has run dry. */
  method Restore(cs0: seq<Cursor>, recLen: pos, keyLen: nat) returns (cs: seq<Cursor>)
    requires Distinct(cs0) && Headless(Runs(cs0), keyLen)
    requires forall i :: 0 < i < |cs0| ==> cs0[i].live
    requires forall i :: 0 <= i < |cs0| ==> cs0[i].recLen == recLen
    ensures GoodHeap(cs, recLen, keyLen) && Bag(Runs(cs)) == Bag(Runs(cs0))
    ensures forall c :: c in cs ==> c in cs0
  {
    hide Bag, Runs, Heaped, AllSorted, Live, Sifting;
    if cs0[0].live {
      HeadlessSifts(Runs(cs0), keyLen);
      cs := SiftDown(cs0, keyLen, 0, |cs0|);
      RearrangedGood(cs, cs0, recLen, keyLen, |cs0|);
    } else {
      var last := |cs0| - 1;
      LastToRoot(Runs(cs0), keyLen);
      ShortHeap(cs0, recLen);
      cs := Swapped(cs0, 0, last)[..last];
      if cs != [] {
        var short := cs;
        cs := SiftDown(short, keyLen, 0, last);
        RearrangedGood(cs, short, recLen, keyLen, last);
      } else {
        EmptyHeap(recLen, keyLen);
      }
    }
  }

  /** The dead root swapped with the last run and dropped: the last run is left to sift. */
  lemma LastToRoot(after: seq<Run>, keyLen: nat)
    requires Headless(after, keyLen) && after[0] == []
    ensures var last := |after| - 1;
      var rest := Swapped(after, 0, last)[..last];
      Live(rest) && AllSorted(rest, keyLen) && Sifting(rest, keyLen, 0, 0, last) && Bag(rest) == Bag(after)
  {
    hide Bag;
    var last := |after| - 1;
    var moved := Swapped(after, 0, last);
    var rest := moved[..last];
    SwappedPermutes(after, 0, last);
    BagPermuted(moved, after);
    assert moved[last] == [];
    assert moved == rest + [moved[last]];
    BagAppend(rest, [moved[last]]);
    BagOne(moved[last]);
    forall j: nat | 0 < j < last && Parent(j) >= 0 && Parent(j) != 0
      ensures InOrder(rest, keyLen, j)
    {
      assert HeadsInOrder(after, keyLen, j);
    }
  }

  lemma ShortHeap(cs: seq<Cursor>, recLen: pos)
    requires cs != [] && Distinct(cs)
    requires forall i :: 0 < i < |cs| ==> cs[i].live
    requires forall i :: 0 <= i < |cs| ==> cs[i].recLen == recLen
    ensures var last := |cs| - 1;
      var rest := Swapped(cs, 0, last)[..last];
      && Distinct(rest) && AllLive(rest) && Runs(rest) == Swapped(Runs(cs), 0, last)[..last]
      && (forall c :: c in rest ==> c in cs)
      && (forall i :: 0 <= i < |rest| ==> rest[i].recLen == recLen)
  {
    hide Runs;
    var last := |cs| - 1;
    var rest := Swapped(cs, 0, last)[..last];
    RunsSwapped(cs, 0, last);
    assert forall i :: 0 <= i < last ==> Runs(rest)[i] == Swapped(Runs(cs), 0, last)[..last][i];
  }

  lemma EmptyHeap(recLen: pos, keyLen: nat)
    ensures GoodHeap([], recLen, keyLen) && Runs([]) == []
  {
  }

  /** In a sorted buffer the first record is the least. */
  lemma HeadOfSplit(b: Bytes, recLen: pos, keyLen: nat)
    requires |b| >= recLen && Whole(b, recLen) && SortedByKey(Split(b, recLen), keyLen)
    ensures Whole(b[recLen..], recLen) && SortedByKey(Split(b[recLen..], recLen), keyLen)
    ensures b[..recLen] in Split(b, recLen)
    ensures multiset(Split(b[recLen..], recLen)) == multiset(Split(b, recLen)) - multiset{b[..recLen]}
    ensures forall r :: r in multiset(Split(b, recLen)) ==> KeyAtMost(b[..recLen], r, keyLen)
  {
    hide Split, KeyAtMost;
    var all, rest := Split(b, recLen), Split(b[recLen..], recLen);
    SplitHead(b, recLen);
    ModUnique(recLen, 1, 0, recLen);
    WholeParts(|b|, recLen, recLen);
    forall i, j | 0 <= i < j < |rest|
      ensures KeyAtMost(rest[i], rest[j], keyLen)
    {
      assert all[i + 1] == rest[i] && all[j + 1] == rest[j];
    }
    forall r | r in multiset(all)
      ensures KeyAtMost(b[..recLen], r, keyLen)
    {
      var k :| 0 <= k < |all| && all[k] == r;
      assert all[0] == b[..recLen];
      KeyReflexive(r, keyLen);
    }
  }
}
