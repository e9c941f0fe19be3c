/**
  The external sorter: a bounded buffer spilled as sorted runs, merged back through a heap of run
  cursors, or materialised once into a searchable table.  A file is the bytes written to it; a
  device that fails is a cursor whose fuse has run out.
 */
module ExtSort {
  import opened Bytes
  import opened Records
  import opened MergeHeap

  type pos = x: nat | x > 0 witness 1

  const DEFAULT_BYTES := 0x400_0000
  const RUN_READ_BYTES := 256 * 1024

  // ---------- Sorting a buffer ----------

  /** The same records, in key order: all sort.Sort promises, ties in any order. */
  ghost predicate IsSortOf(sorted: seq<Bytes>, recs: seq<Bytes>, keyLen: nat) {
    SortedByKey(sorted, keyLen) && multiset(sorted) == multiset(recs)
  }

  method InsertRecord(recs: seq<Bytes>, rec: Bytes, keyLen: nat) returns (longer: seq<Bytes>)
    requires SortedByKey(recs, keyLen)
    ensures IsSortOf(longer, recs + [rec], keyLen)
  {
    hide KeyAtMost, Key, Less;
    var i := |recs|;
    while i > 0 && Less(Key(rec, keyLen), Key(recs[i - 1], keyLen))
      invariant 0 <= i <= |recs|
      invariant forall k :: i <= k < |recs| ==> KeyAtMost(rec, recs[k], keyLen)
    {
      i := i - 1;
      LessOrNot(rec, recs[i], keyLen);
      forall k | i <= k < |recs|
        ensures KeyAtMost(rec, recs[k], keyLen)
      {
        if k > i {
          KeyTransitive(rec, recs[i], recs[k], keyLen);
        }
      }
    }
    forall k | 0 <= k < i
      ensures KeyAtMost(recs[k], rec, keyLen)
    {
      LessOrNot(rec, recs[i - 1], keyLen);
      if k < i - 1 {
        KeyTransitive(recs[k], recs[i - 1], rec, keyLen);
      }
    }
    longer := recs[..i] + [rec] + recs[i..];
    SplicedBag(recs, i, rec);
  }

  lemma LessOrNot(a: Bytes, b: Bytes, keyLen: nat)
    ensures if Less(Key(a, keyLen), Key(b, keyLen)) then KeyAtMost(a, b, keyLen) else KeyAtMost(b, a, keyLen)
  {
    LessTotal(Key(a, keyLen), Key(b, keyLen));
  }

  /** Stands for sort.Sort over recSlice: callers may rely on IsSortOf and nothing else. */
  method SortBytes(b: Bytes, recLen: pos, keyLen: nat) returns (sorted: Bytes)
    requires Whole(b, recLen)
    ensures Whole(sorted, recLen) && |sorted| == |b|
    ensures IsSortOf(Split(sorted, recLen), Split(b, recLen), keyLen)
  {
    hide Split, KeyAtMost, Whole, Join;
    var rest := b;
    var recs: seq<Bytes> := [];
    while |rest| >= recLen
      invariant Whole(rest, recLen) && SortedByKey(recs, keyLen)
      invariant forall i :: 0 <= i < |recs| ==> |recs[i]| == recLen
      invariant multiset(recs) + multiset(Split(rest, recLen)) == multiset(Split(b, recLen))
      decreases |rest|
    {
      var longer := InsertRecord(recs, rest[..recLen], keyLen);
      SameWidths(longer, recs + [rest[..recLen]], recLen);
      SplitHead(rest, recLen);
      WholeTail(rest, recLen);
      recs := longer;
      rest := rest[recLen..];
    }
    Leftover(rest, recLen);
    sorted := Concatenate(recs);
    SplitJoin(recs, recLen);
    SplitCount(sorted, recLen);
    SplitCount(b, recLen);
    assert |multiset(recs)| == |multiset(Split(b, recLen))|;
    SameLength(sorted, b, recLen);
  }

  lemma SameLength(a: Bytes, b: Bytes, m: pos)
    requires Whole(a, m) && Whole(b, m) && |a| / m == |b| / m
    ensures |a| == |b|
  {
    assert |a| == |a| / m * m && |b| == |b| / m * m;
  }

  lemma SameWidths(a: seq<Bytes>, b: seq<Bytes>, recLen: nat)
    requires multiset(a) == multiset(b)
    requires forall i :: 0 <= i < |b| ==> |b[i]| == recLen
    ensures forall i :: 0 <= i < |a| ==> |a[i]| == recLen
  {
    forall i | 0 <= i < |a|
      ensures |a[i]| == recLen
    {
      assert a[i] in multiset(b);
      var k :| 0 <= k < |b| && b[k] == a[i];
    }
  }

  method Concatenate(recs: seq<Bytes>) returns (b: Bytes)
    ensures b == Join(recs)
  {
    b := [];
    var i := |recs|;
    while i > 0
      invariant 0 <= i <= |recs| && b == Join(recs[i..])
    {
      i := i - 1;
      assert recs[i..][1..] == recs[i + 1..];
      b := recs[i] + b;
    }
    assert recs[0..] == recs;
  }

  // ---------- Cursors ----------

  /** One run being read back. */
  class Cursor {
    const recLen: pos
    /** The bytes of the run not yet read. */
    var left: Bytes
    var rec: Bytes
    var live: bool
    /** How many more reads the device will stand; None for a device that does not fail. */
    var fuse: Option<nat>

    constructor (recLen: pos, run: Bytes, fuse: Option<nat>)
      ensures this.recLen == recLen && left == run && !live && this.fuse == fuse
    {
      this.recLen := recLen;
      this.left := run;
      this.rec := [];
      this.live := false;
      this.fuse := fuse;
    }

    /** What the run still has to give, the current record first. */
    ghost function Holds(): Run
      reads this
    {
      if live then [rec] + Split(left, recLen) else []
    }

    /** A read fails when the device does, and when what is left of the run is not a whole record. */
    method Next() returns (ok: bool)
      modifies this
      ensures ok <==> old(fuse) != Some(0) && (old(left) == [] || |old(left)| >= recLen)
      ensures ok ==> (live <==> old(left) != [])
      ensures old(fuse).None? ==> fuse.None?
      ensures ok ==> Holds() == Split(old(left), recLen)
      ensures ok && live ==> rec == old(left)[..recLen] && left == old(left)[recLen..]
      ensures ok && !live ==> left == old(left) == []
    {
      if fuse == Some(0) {
        return false;
      }
      if fuse.Some? {
        fuse := Some(fuse.value - 1);
      }
      if left == [] {
        live := false;
        return true;
      }
      if |left| < recLen {
        // A partial record: io.ErrUnexpectedEOF, which is not the end of a run.
        return false;
      }
      rec, left := left[..recLen], left[recLen..];
      live := true;
      return true;
    }
  }

  ghost function Runs(cs: seq<Cursor>): (runs: seq<Run>)
    reads cs
    ensures |runs| == |cs| && forall i :: 0 <= i < |cs| ==> runs[i] == cs[i].Holds()
  {
    if cs == [] then [] else Runs(cs[..|cs| - 1]) + [cs[|cs| - 1].Holds()]
  }

  /** Runs of whole records on devices that do not fail. */
  ghost predicate Sturdy(cs: seq<Cursor>)
    reads cs
  {
    forall i :: 0 <= i < |cs| ==> cs[i].fuse.None? && Whole(cs[i].left, cs[i].recLen)
  }

  ghost predicate AllLive(cs: seq<Cursor>)
    reads cs
  {
    forall i :: 0 <= i < |cs| ==> cs[i].live
  }

  lemma RunsLive(cs: seq<Cursor>)
    requires AllLive(cs)
    ensures Live(Runs(cs))
    ensures forall i :: 0 <= i < |cs| ==> Runs(cs)[i][0] == cs[i].rec
  {
  }

  lemma RunsSwapped(cs: seq<Cursor>, i: nat, j: nat)
    requires i < |cs| && j < |cs|
    ensures Runs(Swapped(cs, i, j)) == Swapped(Runs(cs), i, j)
  {
    hide Runs;
    var a, b := Runs(Swapped(cs, i, j)), Swapped(Runs(cs), i, j);
    assert forall k :: 0 <= k < |cs| ==> a[k] == b[k];
  }

  /** cursorHeap.Less. */
  method Before(a: Cursor, b: Cursor, keyLen: nat) returns (less: bool)
    requires a.live && b.live
    ensures less ==> HeadAtMost(a.Holds(), b.Holds(), keyLen)
    ensures !less ==> HeadAtMost(b.Holds(), a.Holds(), keyLen)
  {
    less := Less(Key(a.rec, keyLen), Key(b.rec, keyLen));
    LessTotal(Key(a.rec, keyLen), Key(b.rec, keyLen));
  }

  /** The child of i whose record sorts first, the left one of equals. */
  method EarlierChild(cs: seq<Cursor>, keyLen: nat, i: nat, n: nat) returns (j: nat)
    requires n <= |cs| && AllLive(cs) && Live(Runs(cs)) && 2 * i + 1 < n
    ensures i < j < n && Parent(j) == i
    ensures forall k: nat :: 0 < k < n && Parent(k) == i ==> HeadAtMost(Runs(cs)[j], Runs(cs)[k], keyLen)
  {
    hide Runs, Cursor.Holds;
    j := 2 * i + 1;
    assert HeadAtMost(Runs(cs)[j], Runs(cs)[j], keyLen);
    if j + 1 < n {
      var right := Before(cs[j + 1], cs[j], keyLen);
      assert HeadAtMost(Runs(cs)[j + 1], Runs(cs)[j + 1], keyLen);
      if right {
        j := j + 1;
      }
    }
    assert forall k: nat :: 0 < k < n && Parent(k) == i ==> k == 2 * i + 1 || k == 2 * i + 2;
  }

  /** cs is cs0 with its first n cursors rearranged. */
  ghost predicate Rearranged(cs: seq<Cursor>, cs0: seq<Cursor>, n: nat)
    reads cs, cs0
  {
    && n <= |cs0| == |cs| && cs[n..] == cs0[n..]
    && multiset(cs) == multiset(cs0) && multiset(Runs(cs)) == multiset(Runs(cs0))
  }

  lemma RearrangedSwap(cs: seq<Cursor>, cs0: seq<Cursor>, n: nat, i: nat, j: nat)
    requires Rearranged(cs, cs0, n) && i < n && j < n && AllLive(cs)
    ensures Rearranged(Swapped(cs, i, j), cs0, n) && AllLive(Swapped(cs, i, j))
    ensures Runs(Swapped(cs, i, j)) == Swapped(Runs(cs), i, j)
  {
    hide Runs, Cursor.Holds;
    RunsSwapped(cs, i, j);
    SwappedPermutes(cs, i, j);
    SwappedPermutes(Runs(cs), i, j);
    assert cs[n..] == Swapped(cs, i, j)[n..];
  }

  /** container/heap's down: sifts the cursor at i0 into place among the first n. */
  method SiftDown(cs0: seq<Cursor>, keyLen: nat, i0: nat, n: nat) returns (cs: seq<Cursor>)
    requires n <= |cs0| && AllLive(cs0) && i0 < n
    requires Live(Runs(cs0)) && Sifting(Runs(cs0), keyLen, i0, i0, n)
    ensures Rearranged(cs, cs0, n) && AllLive(cs)
    ensures Live(Runs(cs)) && Heaped(Runs(cs), keyLen, i0, n)
  {
    hide Runs, Heaped, Sifting, Cursor.Holds, Swapped, Live;
    cs := cs0;
    var i := i0;
    assert Rearranged(cs, cs0, n);
    while true
      invariant i0 <= i < n && Rearranged(cs, cs0, n) && AllLive(cs)
      invariant Live(Runs(cs)) && Sifting(Runs(cs), keyLen, i0, i, n)
      decreases n - i
    {
      if 2 * i + 1 >= n {
        SiftEnds(Runs(cs), keyLen, i0, i, n);
        return;
      }
      var j := EarlierChild(cs, keyLen, i, n);
      RunsLive(cs);
      var lighter := Before(cs[j], cs[i], keyLen);
      if !lighter {
        EarliestChild(Runs(cs), keyLen, i, j, n);
        SiftEnds(Runs(cs), keyLen, i0, i, n);
        return;
      }
      SiftStep(Runs(cs), keyLen, i0, i, j, n);
      RearrangedSwap(cs, cs0, n, i, j);
      cs := Swapped(cs, i, j);
      i := j;
    }
  }

  lemma EarliestChild(runs: seq<Run>, keyLen: nat, i: nat, j: nat, n: nat)
    requires n <= |runs| && Live(runs) && i < n && j < n && HeadAtMost(runs[i], runs[j], keyLen)
    requires forall k: nat :: 0 < k < n && Parent(k) == i ==> HeadAtMost(runs[j], runs[k], keyLen)
    ensures forall k: nat :: 0 < k < n && Parent(k) == i ==> HeadAtMost(runs[i], runs[k], keyLen)
  {
    forall k: nat | 0 < k < n && Parent(k) == i
      ensures HeadAtMost(runs[i], runs[k], keyLen)
    {
      HeadTransitive(runs[i], runs[j], runs[k], keyLen);
    }
  }

  lemma SiftStarts(runs: seq<Run>, keyLen: nat, i: nat, n: nat)
    requires n <= |runs| && Live(runs) && Heaped(runs, keyLen, i + 1, n)
    ensures Sifting(runs, keyLen, i, i, n)
  {
  }

  lemma LeavesAreHeaped(runs: seq<Run>, keyLen: nat)
    requires Live(runs)
    ensures Heaped(runs, keyLen, |runs| / 2, |runs|)
  {
  }

  /** container/heap's Init. */
  method Heapify(cs0: seq<Cursor>, keyLen: nat) returns (cs: seq<Cursor>)
    requires AllLive(cs0)
    ensures multiset(cs) == multiset(cs0) && AllLive(cs)
    ensures Live(Runs(cs)) && Heaped(Runs(cs), keyLen, 0, |cs|)
    ensures multiset(Runs(cs)) == multiset(Runs(cs0))
  {
    hide Runs, Heaped, Sifting, Cursor.Holds;
    cs := cs0;
    RunsLive(cs);
    LeavesAreHeaped(Runs(cs), keyLen);
    var n := |cs|;
    var i := n / 2;
    while i > 0
      invariant 0 <= i <= n / 2 && |cs| == n && AllLive(cs)
      invariant multiset(cs) == multiset(cs0) && multiset(Runs(cs)) == multiset(Runs(cs0))
      invariant Live(Runs(cs)) && Heaped(Runs(cs), keyLen, i, n)
    {
      i := i - 1;
      SiftStarts(Runs(cs), keyLen, i, n);
      cs := SiftDown(cs, keyLen, i, n);
    }
  }
}
