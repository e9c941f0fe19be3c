/** The sorter and the table: what callers add records to, and what they search. */
module ExtSorter {
  import opened Arithmetic
  import opened Bytes
  import opened Records
  import opened MergeHeap
  import opened ExtSort
  import opened ExtMerge

  datatype AddError = NotWholeRecords | MergeBegan

  /** The records of every spilled run. */
  ghost function Spilled(runs: seq<Bytes>, recLen: pos): (s: seq<Run>)
    ensures |s| == |runs| && forall i :: 0 <= i < |runs| ==> s[i] == Split(runs[i], recLen)
  {
    if runs == [] then [] else Spilled(runs[..|runs| - 1], recLen) + [Split(runs[|runs| - 1], recLen)]
  }

  lemma SpilledAppend(runs: seq<Bytes>, run: Bytes, recLen: pos)
    ensures Bag(Spilled(runs + [run], recLen)) == Bag(Spilled(runs, recLen)) + multiset(Split(run, recLen))
  {
    assert (runs + [run])[..|runs|] == runs;
  }

  class Sorter {
    const recLen: pos
    const keyLen: nat
    const budget: nat
    var buf: Bytes
    var runs: seq<Bytes>
    var count: nat
    var done: bool

    /** No budget takes the default; any is rounded down to whole records, at least one. */
    constructor (keyLen: nat, recLen: pos, budget: int)
      requires keyLen <= recLen
      ensures Valid() && Accepted() == multiset{} && count == 0 && !done
      ensures this.recLen == recLen && this.keyLen == keyLen
      ensures var asked := if budget <= 0 then 0x400_0000 else budget;
        && this.budget % recLen == 0 && (asked < recLen ==> this.budget == recLen)
        && (asked >= recLen ==> this.budget <= asked < this.budget + recLen)
    {
      var b := budget;
      if b <= 0 {
        b := DEFAULT_BYTES;
      }
      if b < recLen {
        b := recLen;
      }
      RoundDown(b, recLen);
      this.recLen := recLen;
      this.keyLen := keyLen;
      this.budget := b - b % recLen;
      this.buf := [];
      this.runs := [];
      this.count := 0;
      this.done := false;
    }

    ghost predicate Valid()
      reads this
    {
      && keyLen <= recLen && budget >= recLen && budget % recLen == 0
      && |buf| < budget && Whole(buf, recLen)
      && forall i :: 0 <= i < |runs| ==>
           Whole(runs[i], recLen) && SortedByKey(Split(runs[i], recLen), keyLen)
    }

    /** Every record the sorter is holding, buffered or spilled. */
    ghost function Accepted(): multiset<Bytes>
      reads this`buf, this`runs
    {
      multiset(Split(buf, recLen)) + Bag(Spilled(runs, recLen))
    }

    /** Adds a batch of concatenated records, spilling a run each time the buffer fills. */
    method Add(recs: Bytes) returns (err: Option<AddError>)
      requires Valid()
      modifies this
      ensures Valid() && done == old(done)
      ensures err == if recs == [] then None
                     else if !Whole(recs, recLen) then Some(NotWholeRecords)
                     else if old(done) then Some(MergeBegan) else None
      ensures err.None? ==>
        && Accepted() == old(Accepted()) + multiset(Split(recs, recLen))
        && count == old(count) + |Split(recs, recLen)|
      ensures err.Some? ==> Accepted() == old(Accepted()) && count == old(count)
    {
      hide Bag, Spilled, Split, Sorter.Accepted;
      if recs == [] {
        EmptyBuffer(recLen);
        return None;
      }
      if |recs| % recLen != 0 {
        return Some(NotWholeRecords);
      }
      if done {
        return Some(MergeBegan);
      }
      SplitCount(recs, recLen);
      ghost var before := Accepted();
      count := count + |recs| / recLen;
      var rest := recs;
      while |rest| > 0
        invariant Valid() && !done && Whole(rest, recLen) && count == old(count) + |Split(recs, recLen)|
        invariant Accepted() + multiset(Split(rest, recLen)) == before + multiset(Split(recs, recLen))
        decreases |rest|
      {
        var room := budget - |buf|;
        var n := if room < |rest| then room else |rest|;
        WholePiece(budget, |buf|, |rest|, recLen);
        SplitAppend(rest[..n], rest[n..], recLen);
        assert rest == rest[..n] + rest[n..];
        Buffer(rest[..n]);
        rest := rest[n..];
      }
      EmptyBuffer(recLen);
      return None;
    }

    /** Appends whole records that fit, spilling the buffer if that fills it. */
    method Buffer(piece: Bytes)
      requires Valid() && Whole(piece, recLen) && |buf| + |piece| <= budget
      modifies this`buf, this`runs
      ensures Valid() && Accepted() == old(Accepted()) + multiset(Split(piece, recLen))
    {
      hide Bag, Spilled, Split;
      WholeParts(|buf|, |piece|, recLen);
      SplitAppend(buf, piece, recLen);
      buf := buf + piece;
      if |buf| >= budget {
        Flush();
      }
    }

    /** What was buffered becomes a sorted run, and nothing accepted is lost. */
    method Flush()
      requires keyLen <= recLen && budget >= recLen && budget % recLen == 0 && Whole(buf, recLen)
      requires forall i :: 0 <= i < |runs| ==>
        Whole(runs[i], recLen) && SortedByKey(Split(runs[i], recLen), keyLen)
      modifies this`buf, this`runs
      ensures Valid() && buf == [] && Accepted() == old(Accepted())
      ensures old(runs) <= runs && |runs| == |old(runs)| + if old(buf) == [] then 0 else 1
    {
      hide Bag, Spilled, Split;
      if buf == [] {
        return;
      }
      var sorted := SortBytes(buf, recLen, keyLen);
      SpilledAppend(runs, sorted, recLen);
      runs := runs + [sorted];
      buf := [];
      EmptyBuffer(recLen);
    }

    /** Closes the sorter and streams every record in key order; `fuse` says which runs' devices fail. */
    method Sorted(fuse: nat -> Option<nat>) returns (m: Option<Merged>)
      requires Valid()
      modifies this
      ensures Valid() && done && Accepted() == old(Accepted()) && count == old(count)
      ensures m.Some? ==>
        && fresh(m.value) && fresh(m.value.heap) && m.value.Valid() && !m.value.failed
        && m.value.recLen == recLen && m.value.keyLen == keyLen
        && m.value.Pending() == old(Accepted())
      ensures m.Some? && m.value.mem.Some? ==> m.value.at == 0
      ensures old(runs) == [] ==> m.Some? && m.value.mem.Some?
      ensures old(runs) != [] && m.Some? ==> m.value.mem.None?
      ensures (forall i: nat :: fuse(i).None?) ==> m.Some? && Sturdy(m.value.heap)
    {
      hide Bag, Spilled, Split, Runs, Heaped, AllSorted, GoodHeap, Sturdy;
      NoneSturdy();
      done := true;
      if runs == [] {
        NothingSpilled(recLen);
        var sorted := SortBytes(buf, recLen, keyLen);
        buf := sorted;
        var merged := new Merged.InMemory(recLen, keyLen, buf);
        return Some(merged);
      }
      Flush();
      var heap := OpenHeap(runs, recLen, keyLen, fuse);
      if heap.None? {
        return None;
      }
      EmptyBuffer(recLen);
      var merged := new Merged.OverRuns(recLen, keyLen, heap.value);
      m := Some(merged);
    }

    /** Drops the runs and the buffer. */
    method Close()
      requires Valid()
      modifies this
      ensures Valid() && done && Accepted() == multiset{} && count == old(count)
    {
      done := true;
      buf := [];
      runs := [];
      ModUnique(0, 0, 0, recLen);
    }
  }

  lemma EmptyBuffer(recLen: pos)
    ensures Whole([], recLen) && Split([], recLen) == []
  {
    ModUnique(0, 0, 0, recLen);
  }

  lemma NoneSturdy()
    ensures Sturdy([])
  {
  }

  lemma NothingSpilled(recLen: pos)
    ensures Bag(Spilled([], recLen)) == multiset{}
  {
  }

  lemma WholePiece(budget: nat, held: nat, rest: nat, recLen: pos)
    requires held < budget && budget % recLen == held % recLen == rest % recLen == 0
    ensures var n := if budget - held < rest then budget - held else rest;
      n % recLen == 0 && (rest - n) % recLen == 0
  {
    WholeParts(budget, held, recLen);
    WholeParts(rest, budget - held, recLen);
    ModUnique(0, 0, 0, recLen);
  }

  lemma RoundDown(b: nat, m: pos)
    requires b >= m
    ensures b - b % m >= m && (b - b % m) % m == 0
  {
    var q := b / m;
    assert b - b % m == q * m;
    ModUnique(q * m, q, 0, m);
    MultipleIsFar(q, m);
  }

  lemma HeapifiedGood(cs: seq<Cursor>, cs0: seq<Cursor>, recLen: pos, keyLen: nat)
    requires multiset(cs) == multiset(cs0) && AllLive(cs) && Distinct(cs0)
    requires multiset(Runs(cs)) == multiset(Runs(cs0))
    requires forall i :: 0 <= i < |cs0| ==> cs0[i].recLen == recLen
    requires AllSorted(Runs(cs0), keyLen)
    requires Live(Runs(cs)) && Heaped(Runs(cs), keyLen, 0, |cs|)
    ensures GoodHeap(cs, recLen, keyLen) && Bag(Runs(cs)) == Bag(Runs(cs0))
    ensures forall c :: c in cs <==> c in cs0
  {
    hide Bag, Runs, Heaped;
    DistinctPermuted(cs0, cs);
    SortedPermuted(Runs(cs0), Runs(cs), keyLen);
    BagPermuted(Runs(cs), Runs(cs0));
    forall i | 0 <= i < |cs|
      ensures cs[i].recLen == recLen
    {
      assert cs[i] in cs0;
    }
  }

  /** The cursors opened so far: one on each run seen that has anything in it, holding what it held. */
  ghost predicate Opening(cs: seq<Cursor>, runs: seq<Bytes>, recLen: pos, keyLen: nat, i: nat)
    requires i <= |runs|
    reads cs
  {
    && Distinct(cs) && AllLive(cs) && (forall k :: 0 <= k < |cs| ==> cs[k].recLen == recLen)
    && AllSorted(Runs(cs), keyLen) && Bag(Runs(cs)) == Bag(Spilled(runs[..i], recLen))
  }

  /** A cursor on every run that has anything in it, or None when a first read fails. */
  method OpenRuns(runs: seq<Bytes>, recLen: pos, keyLen: nat, fuse: nat -> Option<nat>)
    returns (cursors: Option<seq<Cursor>>)
    requires forall i :: 0 <= i < |runs| ==>
      Whole(runs[i], recLen) && SortedByKey(Split(runs[i], recLen), keyLen)
    ensures cursors.Some? ==> var cs := cursors.value;
      && fresh(cs) && Distinct(cs) && AllLive(cs)
      && (forall i :: 0 <= i < |cs| ==> cs[i].recLen == recLen)
      && AllSorted(Runs(cs), keyLen) && Bag(Runs(cs)) == Bag(Spilled(runs, recLen))
    ensures (forall i: nat :: fuse(i).None?) ==> cursors.Some? && Sturdy(cursors.value)
  {
    hide Bag, Spilled, Runs, Split, AllSorted, SortedByKey, Whole, Opening, Sturdy;
    NoneSturdy();
    ghost var sturdy := forall i: nat :: fuse(i).None?;
    var cs: seq<Cursor> := [];
    NothingOpen(runs, recLen, keyLen);
    for i := 0 to |runs|
      invariant fresh(cs) && Opening(cs, runs, recLen, keyLen, i)
      invariant sturdy ==> Sturdy(cs)
    {
      var c := new Cursor(recLen, runs[i], fuse(i));
      WholeRest(runs[i], recLen);
      var ok := c.Next();
      if !ok {
        return None;
      }
      assert forall k :: 0 <= k < |cs| ==> cs[k] != c;
      OpenOne(cs, c, runs, recLen, keyLen, i);
      if c.live {
        if sturdy {
          OneSturdy(cs, c);
        }
        cs := cs + [c];
      }
    }
    AllOpen(cs, runs, recLen, keyLen);
    return Some(cs);
  }

  lemma AllOpen(cs: seq<Cursor>, runs: seq<Bytes>, recLen: pos, keyLen: nat)
    requires Opening(cs, runs, recLen, keyLen, |runs|)
    ensures Distinct(cs) && AllLive(cs) && (forall k :: 0 <= k < |cs| ==> cs[k].recLen == recLen)
    ensures AllSorted(Runs(cs), keyLen) && Bag(Runs(cs)) == Bag(Spilled(runs, recLen))
  {
    assert runs[..|runs|] == runs;
  }

  /** The heap the merge starts from. */
  method OpenHeap(runs: seq<Bytes>, recLen: pos, keyLen: nat, fuse: nat -> Option<nat>)
    returns (heap: Option<seq<Cursor>>)
    requires forall i :: 0 <= i < |runs| ==>
      Whole(runs[i], recLen) && SortedByKey(Split(runs[i], recLen), keyLen)
    ensures heap.Some? ==>
      && fresh(heap.value) && GoodHeap(heap.value, recLen, keyLen)
      && Bag(Runs(heap.value)) == Bag(Spilled(runs, recLen))
    ensures (forall i: nat :: fuse(i).None?) ==> heap.Some? && Sturdy(heap.value)
  {
    hide Bag, Spilled, Split, Runs, Heaped, AllSorted, Sturdy;
    var cursors := OpenRuns(runs, recLen, keyLen, fuse);
    if cursors.None? {
      return None;
    }
    RunsLive(cursors.value);
    var cs := Heapify(cursors.value, keyLen);
    HeapifiedGood(cs, cursors.value, recLen, keyLen);
    StillSturdy(cursors.value, cs);
    forall i | 0 <= i < |cs|
      ensures fresh(cs[i])
    {
      assert cs[i] in cursors.value;
    }
    heap := Some(cs);
  }

  lemma OneSturdy(cs: seq<Cursor>, c: Cursor)
    requires Sturdy(cs) && c.fuse.None? && Whole(c.left, c.recLen)
    ensures Sturdy(cs + [c])
  {
  }

  lemma NothingOpen(runs: seq<Bytes>, recLen: pos, keyLen: nat)
    ensures Opening([], runs, recLen, keyLen, 0)
  {
  }

  lemma OpenOne(cs: seq<Cursor>, c: Cursor, runs: seq<Bytes>, recLen: pos, keyLen: nat, i: nat)
    requires i < |runs| && SortedByKey(Split(runs[i], recLen), keyLen)
    requires c.recLen == recLen && c.Holds() == Split(runs[i], recLen) && c !in cs
    requires Opening(cs, runs, recLen, keyLen, i)
    ensures Opening(if c.live then cs + [c] else cs, runs, recLen, keyLen, i + 1)
  {
    hide Bag, Spilled, Runs, Split;
    assert runs[..i + 1] == runs[..i] + [runs[i]];
    SpilledAppend(runs[..i], runs[i], recLen);
    RunsAppend(cs, c);
    BagAppend(Runs(cs), [c.Holds()]);
    BagOne(c.Holds());
    assert !c.live ==> c.Holds() == [];
  }

  lemma RunsAppend(cs: seq<Cursor>, c: Cursor)
    ensures Runs(cs + [c]) == Runs(cs) + [c.Holds()]
  {
    assert (cs + [c])[..|cs|] == cs;
  }
}
