/**
  The chunker over a reader: a growing window of unconsumed input, refilled to max bytes before
  every cut.  The reader may return fewer bytes than asked for, as often and as few as it likes;
  the chunks do not depend on it.
 */
module Chunker {
  import opened Bytes
  import opened Fingerprint
  import opened Chunking
  import opened ChunkEnds

  /** How a reader's stream ends. */
  datatype Ending = Eof | Failure(code: int)

  /** What io.ReadFull can report. */
  datatype ReadError = Ended(ending: Ending) | UnexpectedEof

  /** One Read call's worth of misbehaviour: how much to hand over, and whether to report the end early. */
  datatype ReadStep = ReadStep(size: nat, eager: bool)

  class Reader {
    var remaining: Bytes
    const ending: Ending
    var schedule: seq<ReadStep>

    constructor (stream: Bytes, ending: Ending, schedule: seq<ReadStep>)
      ensures remaining == stream && this.ending == ending && this.schedule == schedule
    {
      this.remaining := stream;
      this.ending := ending;
      this.schedule := schedule;
    }

    /** io.Reader.Read: any prefix of what is left, the end reported with the last bytes or after them. */
    method Read(want: nat) returns (data: Bytes, err: Option<Ending>)
      requires want > 0
      modifies this
      ensures |data| <= want && old(remaining) == data + remaining
      ensures err.Some? ==> remaining == [] && err.value == ending
      ensures err.None? ==> data != [] || |schedule| < |old(schedule)|
      ensures |schedule| <= |old(schedule)|
    {
      var most := if |remaining| < want then |remaining| else want;
      var size, eager := most, false;
      if schedule != [] {
        size, eager := if schedule[0].size < most then schedule[0].size else most, schedule[0].eager;
        schedule := schedule[1..];
      }
      data := remaining[..size];
      remaining := remaining[size..];
      err := if remaining == [] && (eager || most == 0) then Some(ending) else None;
    }
  }

  /** io.ReadFull: reads until `want` bytes are in hand or the reader stops. */
  method ReadFull(r: Reader, want: nat) returns (data: Bytes, err: Option<ReadError>)
    requires want > 0
    modifies r
    ensures old(r.remaining) == data + r.remaining && |data| <= want
    ensures err.None? <==> |data| == want
    ensures err.Some? ==> r.remaining == []
    ensures err.Some? ==>
      err.value == if r.ending.Eof? && data != [] then UnexpectedEof else Ended(r.ending)
  {
    data := [];
    var stopped: Option<Ending> := None;
    while |data| < want && stopped.None?
      invariant |data| <= want && old(r.remaining) == data + r.remaining
      invariant stopped.Some? ==> r.remaining == [] && stopped.value == r.ending
      decreases stopped.None?, |r.schedule| + want - |data|
    {
      var more;
      more, stopped := r.Read(want - |data|);
      assert data + (more + r.remaining) == (data + more) + r.remaining;
      data := data + more;
    }
    if |data| == want {
      err := None;
    } else if stopped.value.Eof? && data != [] {
      err := Some(UnexpectedEof);
    } else {
      err := Some(Ended(stopped.value));
    }
  }

  datatype Chunk = Chunk(data: Bytes, offset: nat)

  datatype NextResult = Emitted(chunk: Chunk) | Stopped(ending: Ending)

  /** What Next must answer when `pending` is all the unconsumed input there is. */
  ghost function NextOf(c: Config, pending: Bytes, off: nat, ending: Ending): NextResult
    requires c.Legal()
  {
    if pending == [] || (ending.Failure? && |pending| < c.max) then Stopped(ending)
    else Emitted(Chunk(pending[..FirstCut(c, pending)], off))
  }

  const INITIAL_WINDOW := 0x1_0000

  class Chunker {
    const r: Reader
    const c: Config
    var buf: array<byte>
    var n: nat
    var off: nat
    var err: Option<Ending>

    ghost predicate Valid()
      reads this, r, buf
    {
      && c.Legal() && 0 < buf.Length <= c.max && n <= buf.Length
      && (err.Some? ==> err.value == r.ending && r.remaining == [] && n < c.max)
    }

    /** The input not yet emitted: the window, then what the reader still holds. */
    ghost function Pending(): Bytes
      requires Valid()
      reads this, r, buf
    {
      buf[..n] + r.remaining
    }

    constructor (r: Reader, c: Config)
      requires c.Legal()
      ensures Valid() && fresh(buf) && this.r == r && this.c == c
      ensures Pending() == r.remaining && off == 0 && err.None?
    {
      this.r := r;
      this.c := c;
      buf := new byte[if INITIAL_WINDOW < c.max then INITIAL_WINDOW else c.max];
      n, off, err := 0, 0, None;
    }

    /** Reads until max bytes are pending in the buffer or the stream has ended; a longer buffer holds the same bytes. */
    method Fill()
      requires Valid() && err.None?
      modifies this, r, buf
      ensures Valid() && (buf == old(buf) || fresh(buf))
      ensures Pending() == old(Pending()) && off == old(off)
      ensures n == (if |Pending()| < c.max then |Pending()| else c.max)
      ensures err.Some? <==> |Pending()| < c.max
    {
      while n < c.max && err.None?
        invariant Valid() && (buf == old(buf) || fresh(buf))
        invariant Pending() == old(Pending()) && off == old(off)
        invariant err.Some? ==> n == |Pending()|
        decreases err.None?, c.max - n
      {
        if n == buf.Length {
          Grow();
        }
        ghost var window, rest := buf[..n], r.remaining;
        var data, stop := ReadFull(r, buf.Length - n);
        Append(data);
        if stop.Some? {
          // A short final read is the end of the stream, not an error of its own.
          err := Some(if stop.value.UnexpectedEof? then Eof else stop.value.ending);
        }
        assert window + rest == (window + data) + r.remaining;
      }
    }

    /** The bytes a read delivered, placed after the window. */
    method Append(data: Bytes)
      requires n + |data| <= buf.Length
      modifies this`n, buf
      ensures n == old(n) + |data| && buf[..n] == old(buf[..n]) + data
    {
      forall k | 0 <= k < |data| {
        buf[n + k] := data[k];
      }
      n := n + |data|;
    }

    /** Drops the first `cut` bytes of the window. */
    method Consume(cut: nat)
      requires cut <= n <= buf.Length
      modifies this`n, this`off, buf
      ensures n == old(n) - cut && off == old(off) + cut && buf[..n] == old(buf[..n])[cut..]
    {
      off := off + cut;
      ghost var window := buf[..n];
      forall k | 0 <= k < n - cut {
        buf[k] := buf[cut + k];
      }
      n := n - cut;
      assert buf[..n] == window[cut..];
    }

    /** Doubles the buffer, up to max, keeping the window. */
    method Grow()
      requires Valid() && err.None? && n == buf.Length < c.max
      modifies this
      ensures Valid() && fresh(buf) && n == old(n) < buf.Length && err.None? && off == old(off)
      ensures buf[..n] == old(buf[..n])
    {
      var grown := buf.Length * 2;
      if grown > c.max {
        grown := c.max;
      }
      var bigger := new byte[grown];
      forall k | 0 <= k < n {
        bigger[k] := buf[k];
      }
      assert bigger[..n] == buf[..n];
      buf := bigger;
    }

    /** The next chunk, or how the stream ended. */
    method Next() returns (result: NextResult)
      requires Valid()
      modifies this, r, buf
      ensures Valid() && (buf == old(buf) || fresh(buf))
      ensures result == NextOf(c, old(Pending()), old(off), r.ending)
      ensures result.Stopped? ==> Pending() == old(Pending()) && off == old(off)
      ensures result.Emitted? ==>
        && Pending() == old(Pending())[|result.chunk.data|..]
        && off == old(off) + |result.chunk.data|
    {
      hide CutLen, NextOf, Chunker.Pending;
      if err.None? && n < c.max {
        Fill();
      }
      result := Emit();
    }

    /** The next chunk of a window that is full, or as full as it will get. */
    method Emit() returns (result: NextResult)
      requires Valid() && (err.None? ==> n == c.max)
      modifies this, buf
      ensures Valid() && buf == old(buf)
      ensures result == NextOf(c, old(Pending()), old(off), r.ending)
      ensures result.Stopped? ==> Pending() == old(Pending()) && off == old(off)
      ensures result.Emitted? ==>
        && Pending() == old(Pending())[|result.chunk.data|..]
        && off == old(off) + |result.chunk.data|
    {
      hide CutLen;
      ghost var pending := Pending();
      assert Window(c, pending) == buf[..n];
      if n == 0 {
        return Stopped(err.value);
      }
      if err.Some? && err.value.Failure? {
        return Stopped(err.value);
      }
      var cut := Cut(c, buf[..n]);
      var data := buf[..cut];
      result := Emitted(Chunk(data, off));
      ghost var window := buf[..n];
      Consume(cut);
      assert pending[cut..] == window[cut..] + r.remaining;
    }
  }

  /** Midway through the search: everything from min to i is hashed and none of it cuts. */
  ghost predicate Searching(c: Config, src: Bytes, i: nat, h: nat)
    requires c.Legal()
  {
    c.min <= i <= |src| && h == Hash(c.gear, src[c.min..i]) && CutLen(c, src) == CutFrom(c, src, i)
  }

  lemma SearchStarts(c: Config, src: Bytes)
    requires c.Legal() && |src| > c.min
    ensures Searching(c, src, c.min, 0)
  {
  }

  lemma SearchTurn(c: Config, src: Bytes, i: nat, h: nat)
    requires c.Legal() && Searching(c, src, i, h) && i < |src|
    ensures var h' := Absorb(c.gear, h, src[i]);
      if TopBitsClear(h', if i < c.avg then c.strict else c.loose) then CutLen(c, src) == i + 1
      else Searching(c, src, i + 1, h')
  {
    hide TopBitsClear, Absorb;
    assert src[c.min..i + 1][..i - c.min] == src[c.min..i];
  }

  lemma SearchEnds(c: Config, src: Bytes, h: nat)
    requires c.Legal() && Searching(c, src, |src|, h)
    ensures CutLen(c, src) == |src|
  {
  }

  /** FastCDC's cut search: nothing before min is even hashed. */
  method Cut(c: Config, src: Bytes) returns (cut: nat)
    requires c.Legal()
    ensures cut == CutLen(c, src)
  {
    hide Searching, CutFrom, Hash, Absorb, TopBitsClear;
    var n := |src|;
    if n <= c.min {
      return n;
    }
    var normal := c.avg;
    if normal > n {
      normal := n;
    }
    var h: nat := 0;
    var i := c.min;
    SearchStarts(c, src);
    while i < normal
      invariant c.min <= i <= normal && Searching(c, src, i, h)
    {
      SearchTurn(c, src, i, h);
      h := Absorb(c.gear, h, src[i]);
      if TopBitsClear(h, c.strict) {
        return i + 1;
      }
      i := i + 1;
    }
    while i < n
      invariant normal <= i <= n && Searching(c, src, i, h)
    {
      SearchTurn(c, src, i, h);
      h := Absorb(c.gear, h, src[i]);
      if TopBitsClear(h, c.loose) {
        return i + 1;
      }
      i := i + 1;
    }
    SearchEnds(c, src, h);
    return n;
  }

  // ---------- Whole runs ----------

  /** The chunks with the stream offsets they start at. */
  ghost function Placed(chunks: seq<Bytes>, off: nat): seq<Chunk> {
    if chunks == [] then [] else [Chunk(chunks[0], off)] + Placed(chunks[1..], off + |chunks[0]|)
  }

  /** Everything a stream yields before it ends. */
  ghost function Yield(c: Config, s: Bytes, ending: Ending): seq<Bytes>
    requires c.Legal()
  {
    if ending.Eof? then Chunks(c, s) else ChunksBeforeFailure(c, s)
  }

  lemma {:induction false} PlacedOffsets(chunks: seq<Bytes>, off: nat, k: nat)
    requires k < |chunks|
    ensures |Placed(chunks, off)| == |chunks|
    ensures Placed(chunks, off)[k] == Chunk(chunks[k], off + |Concat(chunks[..k])|)
  {
    if k > 0 {
      PlacedOffsets(chunks[1..], off + |chunks[0]|, k - 1);
      assert chunks[..k][1..] == chunks[1..][..k - 1];
    } else {
      PlacedLength(chunks, off);
    }
  }

  /** Each chunk carries its data, at the offset the lengths before it add up to. */
  ghost predicate AtPrefixSums(chunks: seq<Chunk>, datas: seq<Bytes>) {
    && |chunks| == |datas|
    && forall k :: 0 <= k < |chunks| ==> chunks[k] == Chunk(datas[k], |Concat(datas[..k])|)
  }

  lemma PlacedSums(datas: seq<Bytes>)
    ensures AtPrefixSums(Placed(datas, 0), datas)
  {
    hide Placed, Concat;
    PlacedLength(datas, 0);
    forall k | 0 <= k < |datas|
      ensures Placed(datas, 0)[k] == Chunk(datas[k], |Concat(datas[..k])|)
    {
      PlacedOffsets(datas, 0, k);
    }
  }

  /** The chunk is the stretch of the stream at its offset, and ends at the first mark past min. */
  ghost predicate StretchOf(c: Config, s: Bytes, chunk: Chunk)
    requires c.Legal()
  {
    var n := |chunk.data|;
    chunk.offset + n <= |s| && chunk.data == s[chunk.offset..chunk.offset + n] && EndsRight(c, s, chunk.offset, n)
  }

  /** Where the last chunk ends. */
  ghost function Covered(chunks: seq<Chunk>): nat {
    if chunks == [] then 0 else chunks[|chunks| - 1].offset + |chunks[|chunks| - 1].data|
  }

  lemma {:induction false} ConcatEnd(datas: seq<Bytes>)
    requires datas != []
    ensures |Concat(datas)| == |Concat(datas[..|datas| - 1])| + |datas[|datas| - 1]|
  {
    if |datas| > 1 {
      ConcatEnd(datas[1..]);
      assert datas[..|datas| - 1][1..] == datas[1..][..|datas| - 2];
    } else {
      assert datas[..0] == [] && datas[1..] == [];
    }
  }

  lemma YieldEnds(c: Config, s: Bytes, ending: Ending, chunks: seq<Chunk>)
    requires c.Legal() && AtPrefixSums(chunks, Yield(c, s, ending))
    ensures forall k :: 0 <= k < |chunks| ==> StretchOf(c, s, chunks[k])
    ensures ending.Eof? ==> Covered(chunks) == |s|
    ensures !ending.Eof? ==> Covered(chunks) <= |s| < Covered(chunks) + c.max
  {
    hide Marks, Concat, Chunks, ChunksBeforeFailure, AllEnd;
    var datas := Yield(c, s, ending);
    ChunksEnd(c, s, 0);
    ChunksEndEarly(c, s, 0);
    assert s[0..] == s;
    forall k | 0 <= k < |chunks|
      ensures StretchOf(c, s, chunks[k])
    {
      assert AllEnd(c, s, 0, datas);
      EndOf(c, s, 0, datas, k);
      assert chunks[k] == Chunk(datas[k], 0 + |Concat(datas[..k])|);
    }
    if datas != [] {
      ConcatEnd(datas);
    } else {
      NothingJoined();
    }
  }

  lemma StreamEnds(c: Config, s: Bytes, ending: Ending, chunks: seq<Chunk>)
    requires c.Legal() && chunks == Placed(Yield(c, s, ending), 0)
    ensures AtPrefixSums(chunks, Yield(c, s, ending)) && forall k :: 0 <= k < |chunks| ==> StretchOf(c, s, chunks[k])
    ensures ending.Eof? ==> Covered(chunks) == |s|
    ensures !ending.Eof? ==> Covered(chunks) <= |s| < Covered(chunks) + c.max
  {
    hide Yield, Placed, AtPrefixSums, StretchOf, Covered;
    PlacedSums(Yield(c, s, ending));
    YieldEnds(c, s, ending, chunks);
  }

  lemma NothingJoined()
    ensures Concat([]) == []
  {
  }

  lemma {:induction false} PlacedLength(chunks: seq<Bytes>, off: nat)
    ensures |Placed(chunks, off)| == |chunks|
  {
    if chunks != [] {
      PlacedLength(chunks[1..], off + |chunks[0]|);
    }
  }

  lemma YieldStep(c: Config, s: Bytes, off: nat, ending: Ending)
    requires c.Legal()
    ensures match NextOf(c, s, off, ending)
      case Stopped(e) => e == ending && Placed(Yield(c, s, ending), off) == []
      case Emitted(chunk) =>
        && |chunk.data| <= |s|
        && Placed(Yield(c, s, ending), off)
             == [chunk] + Placed(Yield(c, s[|chunk.data|..], ending), off + |chunk.data|)
  {
    hide FirstCut, Concat;
    if NextOf(c, s, off, ending).Emitted? {
      var data := s[..FirstCut(c, s)];
      var rest := Yield(c, s[|data|..], ending);
      assert Yield(c, s, ending) == [data] + rest;
      assert ([data] + rest)[1..] == rest;
    }
  }

  /** The publisher's loop: draining the chunker gives the stream's pure chunking, any way it is read. */
  method ChunkStream(r: Reader, c: Config) returns (chunks: seq<Chunk>, ending: Ending)
    requires c.Legal()
    modifies r
    ensures ending == r.ending
    ensures chunks == Placed(Yield(c, old(r.remaining), r.ending), 0)
    ensures AtPrefixSums(chunks, Yield(c, old(r.remaining), r.ending))
    ensures forall k :: 0 <= k < |chunks| ==> StretchOf(c, old(r.remaining), chunks[k])
    ensures r.ending.Eof? ==> Covered(chunks) == |old(r.remaining)|
    ensures !r.ending.Eof? ==> Covered(chunks) <= |old(r.remaining)| < Covered(chunks) + c.max
  {
    hide Yield, Placed, NextOf, AtPrefixSums, StretchOf, Covered, Chunker.Valid, Chunker.Pending;
    var ck := new Chunker(r, c);
    ghost var whole := Placed(Yield(c, r.remaining, r.ending), 0);
    chunks := [];
    while true
      invariant ck.Valid() && ck.r == r && ck.c == c && fresh(ck) && fresh(ck.buf)
      invariant whole == chunks + Placed(Yield(c, ck.Pending(), r.ending), ck.off)
      decreases |ck.Pending()|
    {
      YieldStep(c, ck.Pending(), ck.off, r.ending);
      var next := ck.Next();
      match next {
        case Stopped(e) =>
          ending := e;
          assert chunks == whole;
          StreamEnds(c, old(r.remaining), r.ending, chunks);
          return;
        case Emitted(chunk) =>
          chunks := chunks + [chunk];
      }
    }
  }
}
