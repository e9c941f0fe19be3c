/** Fixed-width records in a byte string, keyed by their prefix. */
module Records {
  import opened Arithmetic
  import opened Bytes

  /** The key of a record: its first keyLen bytes. */
  function Key(rec: Bytes, keyLen: nat): Bytes {
    if |rec| <= keyLen then rec else rec[..keyLen]
  }

  predicate KeyAtMost(a: Bytes, b: Bytes, keyLen: nat) {
    AtMost(Key(a, keyLen), Key(b, keyLen))
  }

  /** In ascending order of their first keyLen bytes, records that share them in any order. */
  ghost predicate InKeyOrder(recs: seq<Bytes>, keyLen: nat)
    requires forall i :: 0 <= i < |recs| ==> keyLen <= |recs[i]|
  {
    forall i, j :: 0 <= i < j < |recs| ==>
      recs[i][..keyLen] == recs[j][..keyLen] || Precedes(recs[i][..keyLen], recs[j][..keyLen])
  }

  lemma SortedExactly(recs: seq<Bytes>, keyLen: nat)
    requires forall i :: 0 <= i < |recs| ==> keyLen <= |recs[i]|
    ensures SortedByKey(recs, keyLen) <==> InKeyOrder(recs, keyLen)
  {
    hide Less, Precedes;
    forall i, j | 0 <= i < j < |recs|
      ensures KeyAtMost(recs[i], recs[j], keyLen) <==>
              recs[i][..keyLen] == recs[j][..keyLen] || Precedes(recs[i][..keyLen], recs[j][..keyLen])
    {
      KeyIsPrefix(recs[i], keyLen);
      KeyIsPrefix(recs[j], keyLen);
      LessExactly(recs[i][..keyLen], recs[j][..keyLen]);
    }
  }

  lemma KeyIsPrefix(rec: Bytes, keyLen: nat)
    requires keyLen <= |rec|
    ensures Key(rec, keyLen) == rec[..keyLen]
  {
    assert rec[..|rec|] == rec;
  }

  ghost predicate SortedByKey(recs: seq<Bytes>, keyLen: nat) {
    forall i, j :: 0 <= i < j < |recs| ==> KeyAtMost(recs[i], recs[j], keyLen)
  }

  /** Whole records, as a batch, a buffer or a run holds them. */
  ghost predicate Whole(b: Bytes, recLen: nat)
    requires recLen > 0
  {
    |b| % recLen == 0
  }

  /** The records of a byte string; a trailing partial record is not one. */
  ghost function Split(b: Bytes, recLen: nat): seq<Bytes>
    requires recLen > 0
    decreases |b|
  {
    if |b| < recLen then [] else [b[..recLen]] + Split(b[recLen..], recLen)
  }

  lemma SplitHead(b: Bytes, recLen: nat)
    requires 0 < recLen <= |b|
    ensures Split(b, recLen) == [b[..recLen]] + Split(b[recLen..], recLen)
  {
  }

  /** Whole records leave nothing over. */
  lemma Leftover(b: Bytes, recLen: nat)
    requires |b| < recLen && Whole(b, recLen)
    ensures b == [] && Split(b, recLen) == []
  {
    ModUnique(|b|, 0, |b|, recLen);
  }

  lemma WholeTail(b: Bytes, recLen: nat)
    requires 0 < recLen <= |b| && Whole(b, recLen)
    ensures Whole(b[recLen..], recLen)
  {
    ModUnique(recLen, 1, 0, recLen);
    WholeParts(|b|, recLen, recLen);
  }

  lemma KeyReflexive(r: Bytes, keyLen: nat)
    ensures KeyAtMost(r, r, keyLen)
  {
  }

  lemma KeyTransitive(a: Bytes, b: Bytes, c: Bytes, keyLen: nat)
    requires KeyAtMost(a, b, keyLen) && KeyAtMost(b, c, keyLen)
    ensures KeyAtMost(a, c, keyLen)
  {
    AtMostTransitive(Key(a, keyLen), Key(b, keyLen), Key(c, keyLen));
  }

  lemma {:induction false} SplitAppend(a: Bytes, b: Bytes, recLen: nat)
    requires recLen > 0 && Whole(a, recLen)
    ensures Split(a + b, recLen) == Split(a, recLen) + Split(b, recLen)
    decreases |a|
  {
    if |a| < recLen {
      ModUnique(|a|, 0, |a|, recLen);
      assert a + b == b;
    } else {
      WholeParts(|a|, recLen, recLen);
      ModUnique(recLen, 1, 0, recLen);
      assert (a + b)[recLen..] == a[recLen..] + b;
      assert (a + b)[..recLen] == a[..recLen];
      SplitAppend(a[recLen..], b, recLen);
    }
  }

  /** How many records there are, and where record i sits. */
  lemma {:induction false} SplitAt(b: Bytes, recLen: nat, i: nat)
    requires recLen > 0 && i < |Split(b, recLen)|
    ensures 0 <= i * recLen <= (i + 1) * recLen <= |b|
    ensures Split(b, recLen)[i] == b[i * recLen..(i + 1) * recLen]
    decreases |b|
  {
    if i > 0 {
      SplitAt(b[recLen..], recLen, i - 1);
      assert (i - 1) * recLen + recLen == i * recLen;
      assert i * recLen + recLen == (i + 1) * recLen;
      assert b[recLen..][(i - 1) * recLen..i * recLen] == b[i * recLen..(i + 1) * recLen];
    }
  }

  lemma {:induction false} SplitCount(b: Bytes, recLen: nat)
    requires recLen > 0
    ensures |Split(b, recLen)| == |b| / recLen
    decreases |b|
  {
    if |b| < recLen {
      ModUnique(|b|, 0, |b|, recLen);
    } else {
      SplitCount(b[recLen..], recLen);
      var n := |b| - recLen;
      ModUnique(|b|, n / recLen + 1, n % recLen, recLen);
    }
  }

  lemma {:induction false} SplitWidths(b: Bytes, recLen: nat)
    requires recLen > 0
    ensures forall i :: 0 <= i < |Split(b, recLen)| ==> |Split(b, recLen)[i]| == recLen
    decreases |b|
  {
    if |b| >= recLen {
      SplitWidths(b[recLen..], recLen);
    }
  }

  ghost function Join(recs: seq<Bytes>): Bytes {
    if recs == [] then [] else recs[0] + Join(recs[1..])
  }

  lemma {:induction false} SplitJoin(recs: seq<Bytes>, recLen: nat)
    requires recLen > 0 && forall i :: 0 <= i < |recs| ==> |recs[i]| == recLen
    ensures Split(Join(recs), recLen) == recs && Whole(Join(recs), recLen)
  {
    if recs != [] {
      SplitJoin(recs[1..], recLen);
      ModUnique(recLen, 1, 0, recLen);
      WholeParts(recLen, |Join(recs[1..])|, recLen);
      assert Join(recs)[..recLen] == recs[0] && Join(recs)[recLen..] == Join(recs[1..]);
    } else {
      ModUnique(0, 0, 0, recLen);
    }
  }
}
