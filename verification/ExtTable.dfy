/** A sorted result materialised once and searched many times. */
module ExtTable {
  import opened Bytes
  import opened Records
  import opened MergeHeap
  import opened ExtSort
  import opened ExtMerge
  import opened ExtSorter

  /** The small buffered writer the table file is written through. */
  class FlushWriter {
    /** The bytes that reached the file. */
    var file: Bytes
    var buf: Bytes
    const capacity: nat

    constructor ()
      ensures Written() == []
    {
      file := [];
      buf := [];
      capacity := RUN_READ_BYTES;
    }

    /** Everything written so far, in the file or on its way there. */
    ghost function Written(): Bytes
      reads this
    {
      file + buf
    }

    method Write(p: Bytes)
      modifies this
      ensures Written() == old(Written()) + p
    {
      if |buf| + |p| > capacity {
        Flush();
      }
      if |p| > capacity {
        file := file + p;
        return;
      }
      assert file + (buf + p) == (file + buf) + p;
      buf := buf + p;
    }

    method Flush()
      modifies this
      ensures buf == [] && file == old(Written())
    {
      if buf == [] {
        return;
      }
      file := file + buf;
      buf := [];
    }
  }

  class Table {
    const recLen: pos
    const keyLen: nat
    var data: Bytes
    var n: nat

    constructor (recLen: pos, keyLen: nat, data: Bytes, n: nat)
      requires keyLen <= recLen && Whole(data, recLen) && n == |Split(data, recLen)|
      requires SortedByKey(Split(data, recLen), keyLen)
      ensures Valid() && this.recLen == recLen && this.keyLen == keyLen
      ensures Recs() == Split(data, recLen) && this.n == n
    {
      this.recLen := recLen;
      this.keyLen := keyLen;
      this.data := data;
      this.n := n;
    }

    ghost predicate Valid()
      reads this
    {
      keyLen <= recLen && Whole(data, recLen) && n == |Recs()| && SortedByKey(Recs(), keyLen)
    }

    ghost function Recs(): seq<Bytes>
      reads this
    {
      Split(data, recLen)
    }

    ghost predicate Widths()
      reads this
    {
      forall k :: 0 <= k < |Recs()| ==> keyLen <= |Recs()[k]|
    }

    /** Every record has a whole key, its first keyLen bytes. */
    lemma AllWide()
      requires Valid()
      ensures Widths() && forall k :: 0 <= k < n ==> Key(Recs()[k], keyLen) == Recs()[k][..keyLen]
    {
      hide Split, Key;
      SplitWidths(data, recLen);
      forall k | 0 <= k < n
        ensures Key(Recs()[k], keyLen) == Recs()[k][..keyLen]
      {
        KeyIsPrefix(Recs()[k], keyLen);
      }
    }

    /** The i'th record in key order. */
    function At(i: nat): (rec: Bytes)
      requires Valid() && i < n
      reads this
      ensures rec == Recs()[i] && |rec| == recLen
    {
      SplitAt(data, recLen, i);
      data[i * recLen..(i + 1) * recLen]
    }

    /**
      The first record with this key, its position and how many share it: exactly the positions
      i .. i + count hold the key, and no record does when count is zero.
     */
    method Lookup(key: Bytes) returns (rec: Bytes, i: nat, count: nat)
      requires Valid()
      ensures i + count <= n && Widths()
      ensures forall k :: 0 <= k < n ==> (Recs()[k][..keyLen] == key <==> i <= k < i + count)
      ensures count > 0 ==> rec == Recs()[i]
      ensures count == 0 ==> rec == [] && i == 0
    {
      hide Less, Split, Key;
      AllWide();
      i := 0;
      var j := n;
      while i < j
        invariant i <= j <= n
        invariant forall k :: 0 <= k < i ==> Less(Key(Recs()[k], keyLen), key)
        invariant forall k :: j <= k < n ==> AtMost(key, Key(Recs()[k], keyLen))
      {
        var h := (i + j) / 2;
        if Less(Key(At(h), keyLen), key) {
          AllBefore(Recs(), keyLen, key, h);
          i := h + 1;
        } else {
          AllAfter(Recs(), keyLen, key, h);
          j := h;
        }
      }
      BeforeDiffers(Recs(), keyLen, key, i);
      if i == n || Key(At(i), keyLen) != key {
        PastDiffers(Recs(), keyLen, key, i);
        return [], 0, 0;
      }
      count := 0;
      j := i;
      while j < n && Key(At(j), keyLen) == key
        invariant i <= j <= n && count == j - i
        invariant forall k :: i <= k < j ==> Key(Recs()[k], keyLen) == key
      {
        count := count + 1;
        j := j + 1;
      }
      PastDiffers(Recs(), keyLen, key, j);
      rec := At(i);
    }

    method Close()
      requires Valid()
      modifies this
      ensures Valid() && n == 0 && Recs() == []
    {
      data := [];
      n := 0;
      EmptyBuffer(recLen);
    }
  }

  lemma AllBefore(recs: seq<Bytes>, keyLen: nat, key: Bytes, h: nat)
    requires SortedByKey(recs, keyLen) && h < |recs| && Less(Key(recs[h], keyLen), key)
    ensures forall k :: 0 <= k <= h ==> Less(Key(recs[k], keyLen), key)
  {
    forall k | 0 <= k <= h
      ensures Less(Key(recs[k], keyLen), key)
    {
      if k < h {
        assert KeyAtMost(recs[k], recs[h], keyLen);
        if Key(recs[k], keyLen) != Key(recs[h], keyLen) {
          LessTransitive(Key(recs[k], keyLen), Key(recs[h], keyLen), key);
        }
      }
    }
  }

  lemma AllAfter(recs: seq<Bytes>, keyLen: nat, key: Bytes, h: nat)
    requires SortedByKey(recs, keyLen) && h < |recs| && !Less(Key(recs[h], keyLen), key)
    ensures forall k :: h <= k < |recs| ==> AtMost(key, Key(recs[k], keyLen))
  {
    LessTotal(Key(recs[h], keyLen), key);
    forall k | h <= k < |recs|
      ensures AtMost(key, Key(recs[k], keyLen))
    {
      if h < k {
        assert KeyAtMost(recs[h], recs[k], keyLen);
        AtMostTransitive(key, Key(recs[h], keyLen), Key(recs[k], keyLen));
      }
    }
  }

  lemma BeforeDiffers(recs: seq<Bytes>, keyLen: nat, key: Bytes, i: nat)
    requires i <= |recs| && forall k :: 0 <= k < i ==> Less(Key(recs[k], keyLen), key)
    ensures forall k :: 0 <= k < i ==> Key(recs[k], keyLen) != key
  {
    LessIrreflexive(key);
  }

  /** From the first key at or past the wanted one that is not equal to it, none is. */
  lemma PastDiffers(recs: seq<Bytes>, keyLen: nat, key: Bytes, j: nat)
    requires SortedByKey(recs, keyLen) && j <= |recs|
    requires j < |recs| ==> AtMost(key, Key(recs[j], keyLen)) && Key(recs[j], keyLen) != key
    ensures forall k :: j <= k < |recs| ==> Key(recs[k], keyLen) != key
  {
    forall k | j <= k < |recs|
      ensures Key(recs[k], keyLen) != key
    {
      if j < k {
        assert KeyAtMost(recs[j], recs[k], keyLen);
        if Key(recs[k], keyLen) == key {
          LessAsymmetric(key, Key(recs[j], keyLen));
        }
      }
    }
  }

  /**
    Sorter.Table: drains the merge into one file, or keeps a buffer that never spilled where it
    is.  Without a read error the table is a key-sorted permutation of every record ever added.
   */
  method Materialise(s: Sorter, fuse: nat -> Option<nat>) returns (t: Option<Table>)
    requires s.Valid()
    modifies s
    ensures s.Valid() && s.done
    ensures t.Some? ==>
      && fresh(t.value) && t.value.Valid() && t.value.recLen == s.recLen && t.value.keyLen == s.keyLen
      && multiset(t.value.Recs()) == old(s.Accepted()) && t.value.n == |old(s.Accepted())|
      && t.value.Widths() && InKeyOrder(t.value.Recs(), s.keyLen)
    ensures old(s.runs) == [] || (forall i: nat :: fuse(i).None?) ==> t.Some?
  {
    hide Split, Bag, Sorter.Accepted, Less, Sturdy;
    forall r | r in s.Accepted()
      ensures |r| == s.recLen
    {
      AcceptedWidths(s, r);
    }
    var merged := s.Sorted(fuse);
    if merged.None? {
      return None;
    }
    var m := merged.value;
    if m.mem.Some? {
      var data := m.mem.value;
      assert data[0..] == data;
      SplitCount(data, s.recLen);
      var table := new Table(s.recLen, s.keyLen, data, |data| / s.recLen);
      table.AllWide();
      SortedExactly(table.Recs(), s.keyLen);
      return Some(table);
    }
    var data, n, ok := Drain(m);
    if !ok {
      return None;
    }
    s.Close();
    var table := new Table(s.recLen, s.keyLen, data, n);
    table.AllWide();
    SortedExactly(table.Recs(), s.keyLen);
    t := Some(table);
  }

  /** Midway through a merge: `out` is handed over, `pending` is still to come. */
  ghost predicate MergedSoFar(out: seq<Bytes>, pending: multiset<Bytes>, total: multiset<Bytes>, recLen: pos,
                              keyLen: nat) {
    && SortedByKey(out, keyLen) && multiset(out) + pending == total
    && (forall r :: r in total ==> |r| == recLen)
    && forall i, r :: 0 <= i < |out| && r in pending ==> KeyAtMost(out[i], r, keyLen)
  }

  lemma MergedOneMore(out: seq<Bytes>, pending: multiset<Bytes>, total: multiset<Bytes>, recLen: pos, keyLen: nat,
                      rec: Bytes)
    requires MergedSoFar(out, pending, total, recLen, keyLen) && rec in pending
    requires forall r :: r in pending ==> KeyAtMost(rec, r, keyLen)
    ensures MergedSoFar(out + [rec], pending - multiset{rec}, total, recLen, keyLen)
  {
    hide KeyAtMost;
    assert pending == (pending - multiset{rec}) + multiset{rec};
  }

  lemma MergedAll(out: seq<Bytes>, total: multiset<Bytes>, recLen: pos, keyLen: nat)
    requires MergedSoFar(out, multiset{}, total, recLen, keyLen)
    ensures Whole(Join(out), recLen) && Split(Join(out), recLen) == out
    ensures SortedByKey(out, keyLen) && multiset(out) == total
  {
    forall i | 0 <= i < |out|
      ensures |out[i]| == recLen
    {
      assert out[i] in multiset(out);
    }
    SplitJoin(out, recLen);
  }

  /** Writes every record of the merge out, in the order the merge gives them. */
  method Drain(m: Merged) returns (data: Bytes, n: nat, ok: bool)
    requires m.Valid() && !m.failed
    requires forall r :: r in m.Pending() ==> |r| == m.recLen
    modifies m, m.heap
    ensures ok ==>
      && Whole(data, m.recLen) && n == |Split(data, m.recLen)|
      && SortedByKey(Split(data, m.recLen), m.keyLen)
      && multiset(Split(data, m.recLen)) == old(m.Pending())
    ensures old(Sturdy(m.heap)) ==> ok
  {
    hide Sturdy, Split, Bag, KeyAtMost, Merged.Pending, Merged.Valid, Whole, Join, MergedSoFar, SortedByKey;
    EmptyJoin();
    var w := new FlushWriter();
    ghost var out: seq<Bytes> := [];
    ghost var total := m.Pending();
    NothingMerged(total, m.recLen, m.keyLen);
    n := 0;
    ok := true;
    while ok
      invariant m.Valid() && fresh(w) && n == |out| && w.Written() == Join(out)
      invariant forall c :: c in m.heap ==> c in old(m.heap)
      invariant ok ==> !m.failed && MergedSoFar(out, m.Pending(), total, m.recLen, m.keyLen)
      invariant !ok && !m.failed ==> MergedSoFar(out, multiset{}, total, m.recLen, m.keyLen)
      invariant old(Sturdy(m.heap)) ==> !m.failed && Sturdy(m.heap)
      decreases ok, |m.Pending()|
    {
      assert forall i :: 0 <= i < |m.heap| ==> m.heap[i] in old(m.heap);
      var rec := Step(m, out, total);
      ok := rec.Some?;
      if ok {
        w.Write(rec.value);
        JoinAppend(out, rec.value);
        out := out + [rec.value];
        n := n + 1;
      }
    }
    ok := !m.failed;
    w.Flush();
    data := w.file;
    if ok {
      MergedAll(out, total, m.recLen, m.keyLen);
    }
  }

  /** One record further down the merge. */
  method Step(m: Merged, ghost out: seq<Bytes>, ghost total: multiset<Bytes>) returns (rec: Option<Bytes>)
    requires m.Valid() && !m.failed && MergedSoFar(out, m.Pending(), total, m.recLen, m.keyLen)
    modifies m, m.heap
    ensures m.Valid() && forall c :: c in m.heap ==> c in old(m.heap)
    ensures rec.Some? ==>
      && !m.failed && MergedSoFar(out + [rec.value], m.Pending(), total, m.recLen, m.keyLen)
      && |m.Pending()| < |old(m.Pending())|
    ensures rec.None? && !m.failed ==> MergedSoFar(out, multiset{}, total, m.recLen, m.keyLen)
    ensures old(Sturdy(m.heap)) ==> !m.failed && Sturdy(m.heap)
  {
    hide Sturdy, Split, Bag, KeyAtMost, Merged.Pending, Merged.Valid, MergedSoFar;
    ghost var pending := m.Pending();
    rec := m.Next();
    if rec.Some? {
      MergedOneMore(out, pending, total, m.recLen, m.keyLen, rec.value);
      assert pending == m.Pending() + multiset{rec.value};
    }
  }

  lemma NothingMerged(total: multiset<Bytes>, recLen: pos, keyLen: nat)
    requires forall r :: r in total ==> |r| == recLen
    ensures MergedSoFar([], total, total, recLen, keyLen)
  {
  }

  lemma EmptyJoin()
    ensures Join([]) == []
  {
  }

  lemma {:induction false} JoinAppend(recs: seq<Bytes>, rec: Bytes)
    ensures Join(recs + [rec]) == Join(recs) + rec
  {
    if recs != [] {
      JoinAppend(recs[1..], rec);
      assert (recs + [rec])[1..] == recs[1..] + [rec];
    }
  }

  /** Everything a sorter holds is a whole record. */
  lemma AcceptedWidths(s: Sorter, r: Bytes)
    requires r in s.Accepted()
    ensures |r| == s.recLen
  {
    SplitWidths(s.buf, s.recLen);
    if r !in Split(s.buf, s.recLen) {
      InBag(Spilled(s.runs, s.recLen), r);
      var i :| 0 <= i < |s.runs| && r in Split(s.runs[i], s.recLen);
      SplitWidths(s.runs[i], s.recLen);
    }
  }
}
