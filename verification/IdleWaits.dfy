/**
  When a seal is due, said by the positions and instants of a run's log alone: of the sealer's own
  functions and memory nothing is used to say it.
 */
module IdleWaits {
  import opened Bytes
  import opened Powers
  import opened PublishSlot
  import opened IdleSealer
  import opened IdleRuns

  // ---------- What happened, by position ----------

  ghost predicate StillOpen(log: seq<Event>) {
    forall x :: 0 <= x < |log| ==> !log[x].Closing?
  }

  ghost predicate Moves(e: Event) {
    e.Attached? || e.Detached?
  }

  /** The stream attached at j has left before n. */
  ghost predicate GoneBy(log: seq<Event>, j: nat, n: nat)
    requires j < n <= |log| && log[j].Attached?
  {
    exists d: nat :: j < d < n && log[d].Detached? && log[d].stream == log[j].stream
  }

  ghost predicate NobodyAt(log: seq<Event>, n: nat)
    requires n <= |log|
  {
    forall j: nat :: j < n && log[j].Attached? ==> GoneBy(log, j, n)
  }

  /** The sample at x is unlike the one at b, which is the last before it. */
  ghost predicate Differs(log: seq<Event>, b: nat, x: nat)
    requires b < x < |log|
  {
    && log[b].Sampled? && log[x].Sampled? && log[b].reading != log[x].reading
    && forall y :: b < y < x ==> !log[y].Sampled?
  }

  /** At x a seal succeeded, or a sample showed a write. */
  ghost predicate Changes(log: seq<Event>, x: nat)
    requires x < |log|
  {
    log[x].DoneAt? || exists b: nat :: b < x && Differs(log, b, x)
  }

  /** The failed seals before r that no successful one has followed. */
  ghost function FailedSince(log: seq<Event>, r: nat): set<nat>
    requires r <= |log|
  {
    set x: nat | x < r && log[x].FailedAt? && forall y :: x < y < r ==> !log[y].DoneAt?
  }

  /** A beacon came before position m, no more than five seconds before any tab came or went, or later. */
  ghost predicate Beaconed(log: seq<Event>, m: nat)
    requires m <= |log|
  {
    exists h: nat :: h < m && log[h].Hinted? && BeaconAt(log, m, log[h].at)
  }

  ghost predicate BeaconAt(log: seq<Event>, m: nat, at: int)
    requires m <= |log|
  {
    forall x: nat :: x < m && Moves(log[x]) ==> at >= log[x].at - 5_000_000_000
  }

  /**
    By the sample at r it is this long since a tab came or went before the look at m, since anything
    changed, and since session and sealer began.
   */
  ghost predicate StillFor(c: Config, log: seq<Event>, m: nat, r: nat, wait: int)
    requires m < r < |log|
  {
    && log[r].at - c.start >= wait && log[r].at - c.sealerStart >= wait
    && (forall x: nat :: x < m && Moves(log[x]) ==> log[r].at - log[x].at >= wait)
    && forall x: nat :: x <= r && Changes(log, x) ==> log[r].at - log[x].at >= wait
  }

  /** Of n failures in a row each is min(2^(n-1) windows, interval) ago. */
  ghost predicate PastBackoff(c: Config, log: seq<Event>, r: nat)
    requires r < |log|
  {
    var failed := FailedSince(log, r);
    forall x :: x in failed ==> log[r].at - log[x].at >= Doubled(|failed| - 1, c.interval)
  }

  ghost function Doubled(n: nat, interval: int): int {
    var wait := Pow2(n) * Owed(interval, false);
    if wait < interval then wait else interval
  }

  /** The look at m found nobody, and the sample at r asks for a seal. */
  ghost predicate Ripe(c: Config, log: seq<Event>, m: nat, r: nat)
    requires m < r < |log| && log[r].Sampled?
  {
    var p := log[r].reading;
    && NobodyAt(log, m) && p.staged >= 0 && p.nodes >= 0 && p.edges >= 0 && !(p.staged == 0 && p.nodes == 0 && p.edges == 0)
    && PastBackoff(c, log, r) && StillFor(c, log, m, r, Owed(c.interval, Beaconed(log, m)))
  }

  // ---------- The accounts, by position ----------

  ghost predicate Ordered(log: seq<Event>) {
    forall i, j :: 0 <= i < j < |log| ==> log[i].at <= log[j].at
  }

  /** A stream is attached exactly if it came and has not left since. */
  lemma {:induction false} TabsExactly(log: seq<Event>, s: nat)
    ensures s in Tabs(log) <==> exists j: nat :: j < |log| && log[j].Attached? && log[j].stream == s && !GoneBy(log, j, |log|)
  {
    if log != [] {
      var n := |log| - 1;
      var front := log[..n];
      TabsExactly(front, s);
      forall j: nat | j < n && log[j].Attached? && log[j].stream == s
        ensures GoneBy(log, j, |log|) <==> GoneBy(front, j, n) || (log[n].Detached? && log[n].stream == s)
      {
        if d: nat :| j < d < n && front[d].Detached? && front[d].stream == front[j].stream {
          assert log[d] == front[d];
        }
        if d: nat :| j < d < |log| && log[d].Detached? && log[d].stream == log[j].stream {
          assert d < n ==> front[d] == log[d];
        }
      }
      if j: nat :| j < n && front[j].Attached? && front[j].stream == s && !GoneBy(front, j, n) {
        assert log[j] == front[j];
      }
      if j: nat :| j < |log| && log[j].Attached? && log[j].stream == s && !GoneBy(log, j, |log|) {
        assert j < n ==> front[j] == log[j];
      }
    }
  }

  lemma NobodyExactly(log: seq<Event>, n: nat)
    requires n <= |log|
    ensures Tabs(log[..n]) == {} <==> NobodyAt(log, n)
  {
    var front := log[..n];
    forall j: nat | j < n && log[j].Attached?
      ensures GoneBy(log, j, n) <==> GoneBy(front, j, n)
    {
      if d: nat :| j < d < n && log[d].Detached? && log[d].stream == log[j].stream {
        assert front[d] == log[d];
      }
    }
    if s :| s in Tabs(front) {
      TabsExactly(front, s);
    }
    if j: nat :| j < n && log[j].Attached? && !GoneBy(log, j, n) {
      TabsExactly(front, log[j].stream);
      assert front[j] == log[j];
    }
  }

  lemma {:induction false} HintLatest(log: seq<Event>)
    requires Ordered(log)
    ensures LastHint(log).None? <==> forall x :: 0 <= x < |log| ==> !log[x].Hinted?
    ensures LastHint(log).Some? ==>
      && (exists x: nat :: x < |log| && log[x].Hinted? && log[x].at == LastHint(log).value)
      && forall x: nat :: x < |log| && log[x].Hinted? ==> log[x].at <= LastHint(log).value
  {
    if log != [] {
      var n := |log| - 1;
      var front := log[..n];
      HintLatest(front);
      assert forall x: nat :: x < n ==> front[x] == log[x];
      assert log[n].Hinted? ==> LastHint(log).value == log[n].at;
      if !log[n].Hinted? && LastHint(log).Some? {
        var x: nat :| x < n && front[x].Hinted? && front[x].at == LastHint(front).value;
        assert log[x].Hinted?;
      }
    }
  }

  /** What a prefix says of its own positions the log says of them too. */
  lemma ChangesThere(log: seq<Event>, n: nat, x: nat)
    requires x < n <= |log|
    ensures Changes(log[..n], x) <==> Changes(log, x)
  {
    var front := log[..n];
    assert forall y: nat :: y < n ==> front[y] == log[y];
    forall b: nat | b < x
      ensures Differs(front, b, x) <==> Differs(log, b, x)
    {
    }
  }

  lemma {:induction false} LastSample(log: seq<Event>)
    ensures LastReading(log).None? <==> forall x :: 0 <= x < |log| ==> !log[x].Sampled?
    ensures LastReading(log).Some? ==>
      exists b: nat :: b < |log| && log[b].Sampled? && log[b].reading == LastReading(log).value
                       && forall y :: b < y < |log| ==> !log[y].Sampled?
  {
    if log != [] {
      var n := |log| - 1;
      var front := log[..n];
      LastSample(front);
      assert forall x: nat :: x < n ==> front[x] == log[x];
      if log[n].Sampled? {
        assert log[n].reading == LastReading(log).value;
      } else if LastReading(log).Some? {
        var b: nat :| b < n && front[b].Sampled? && front[b].reading == LastReading(front).value
                      && forall y :: b < y < n ==> !front[y].Sampled?;
        assert log[b].Sampled? && forall y :: b < y < |log| ==> !log[y].Sampled?;
      }
    }
  }

  /** The last event changes something exactly if the account of the last change says so. */
  lemma NewestChanges(log: seq<Event>)
    requires log != []
    ensures var n := |log| - 1;
      Changes(log, n) <==> log[n].DoneAt? || (log[n].Sampled? && LastReading(log[..n]).Some?
                                              && LastReading(log[..n]) != Some(log[n].reading))
  {
    var n := |log| - 1;
    var front := log[..n];
    LastSample(front);
    assert forall x: nat :: x < n ==> front[x] == log[x];
    if LastReading(front).Some? {
      var b: nat :| b < n && front[b].Sampled? && front[b].reading == LastReading(front).value
                    && forall y :: b < y < n ==> !front[y].Sampled?;
      assert log[b].Sampled? && forall y :: b < y < n ==> !log[y].Sampled?;
      if log[n].Sampled? && log[n].reading != log[b].reading {
        assert Differs(log, b, n);
      }
      if a: nat :| a < n && Differs(log, a, n) {
        assert a == b;
      }
    }
  }

  lemma {:induction false} ChangeLatest(log: seq<Event>, start: int)
    requires Ordered(log)
    ensures LastChange(log, start) == start || exists x: nat :: x < |log| && Changes(log, x) && log[x].at == LastChange(log, start)
    ensures forall x: nat :: x < |log| && Changes(log, x) ==> log[x].at <= LastChange(log, start)
  {
    if log != [] {
      var n := |log| - 1;
      var front := log[..n];
      ChangeLatest(front, start);
      NewestChanges(log);
      forall x: nat | x < n
        ensures front[x] == log[x] && (Changes(front, x) <==> Changes(log, x))
      {
        ChangesThere(log, n, x);
      }
      hide Changes;
      if Changes(log, n) {
        assert LastChange(log, start) == log[n].at;
      } else {
        assert LastChange(log, start) == LastChange(front, start);
        if LastChange(front, start) != start {
          var x: nat :| x < n && Changes(front, x) && front[x].at == LastChange(front, start);
          assert Changes(log, x);
        }
      }
    }
  }

  /** The count of failures, and the instant of the last of them. */
  lemma {:induction false} FailuresExactly(log: seq<Event>)
    requires Ordered(log)
    ensures Failures(log) == |FailedSince(log, |log|)|
    ensures Failures(log) > 0 ==>
      && (exists x :: x in FailedSince(log, |log|) && log[x].at == LastFailure(log))
      && forall x :: x in FailedSince(log, |log|) ==> log[x].at <= LastFailure(log)
  {
    if log != [] {
      var n := |log| - 1;
      var before := FailedSince(log[..n], n);
      FailuresExactly(log[..n]);
      FailedMore(log);
      assert n !in before && forall x :: x in before ==> x < n;
      hide FailedSince;
      if log[n].FailedAt? {
        assert |before + {n}| == |before| + 1;
      }
    } else {
      assert FailedSince(log, 0) == {};
    }
  }

  lemma FailedMore(log: seq<Event>)
    requires log != []
    ensures var n := |log| - 1;
      var before := FailedSince(log[..n], n);
      FailedSince(log, |log|) == if log[n].DoneAt? then {} else if log[n].FailedAt? then before + {n} else before
  {
    var n := |log| - 1;
    FailedThere(log, n);
    assert forall x: nat :: x in FailedSince(log, |log|) ==> x == n || x in FailedSince(log, n);
    if !log[n].DoneAt? {
      assert forall x: nat :: x in FailedSince(log, n) ==> x in FailedSince(log, |log|);
    }
  }

  lemma FailedThere(log: seq<Event>, n: nat)
    requires n <= |log|
    ensures FailedSince(log[..n], n) == FailedSince(log, n)
  {
    var front := log[..n];
    assert forall x: nat :: x < n ==> front[x] == log[x];
    assert forall x: nat :: x in FailedSince(front, n) <==> x in FailedSince(log, n);
  }

  /** Every departure is of a stream that was there, unless the session had begun to close. */
  ghost predicate Genuine(log: seq<Event>) {
    forall d: nat :: d < |log| && log[d].Detached? ==> log[d].stream in Tabs(log[..d])
  }

  /** While nobody is attached, the instant of the last departure is that of the last coming or going. */
  lemma MoveLatest(log: seq<Event>, start: int)
    requires Ordered(log) && Genuine(log) && Tabs(log) == {}
    ensures EmptiedAt(log, start) == start || exists d: nat :: d < |log| && log[d].Detached? && log[d].at == EmptiedAt(log, start)
    ensures forall x: nat :: x < |log| && Moves(log[x]) ==> log[x].at <= EmptiedAt(log, start)
  {
    var from := EmptySince(log, start);
    forall x: nat | from <= x < |log|
      ensures !Moves(log[x])
    {
      StillThere(log, x);
    }
    assert from > 0 ==> forall x: nat :: x < from ==> log[x].at <= log[from - 1].at;
  }

  lemma StillThere(log: seq<Event>, x: nat)
    requires x < |log| && Genuine(log) && Tabs(log[..x]) == {} && Tabs(log[..x + 1]) == {}
    ensures !Moves(log[x])
  {
    assert log[..x + 1][..x] == log[..x];
  }

  // ---------- The two accounts agree ----------

  /** What is asked of a log, and holds of every run's until the session closes. */
  ghost predicate Honest(c: Config, log: seq<Event>) {
    && Ordered(log) && Genuine(log)
    && forall x: nat :: x < |log| ==> log[x].at >= c.start && (!Outside(log[x]) ==> log[x].at >= c.sealerStart)
  }

  lemma HonestThere(c: Config, log: seq<Event>, n: nat)
    requires Honest(c, log) && n <= |log|
    ensures Honest(c, log[..n])
  {
    forall d: nat | d < n && log[..n][d].Detached?
      ensures log[..n][d].stream in Tabs(log[..n][..d])
    {
      assert log[..n][..d] == log[..d];
    }
  }

  lemma BeaconExactly(c: Config, log: seq<Event>, m: nat)
    requires Honest(c, log) && m <= |log| && Tabs(log[..m]) == {}
    ensures var e, hint := EmptiedAt(log[..m], c.start), LastHint(log[..m]);
      Beaconed(log, m) <==> hint.Some? && hint.value >= e - 5_000_000_000
  {
    hide Tabs, EmptiedAt, LastHint, Genuine;
    var front := log[..m];
    HonestThere(c, log, m);
    MoveLatest(front, c.start);
    HintLatest(front);
    assert forall x: nat :: x < m ==> front[x] == log[x];
    var e, hint := EmptiedAt(front, c.start), LastHint(front);
    if hint.Some? && hint.value >= e - 5_000_000_000 {
      var h: nat :| h < m && front[h].Hinted? && front[h].at == hint.value;
      assert BeaconAt(log, m, log[h].at);
    }
    if h: nat :| h < m && log[h].Hinted? && BeaconAt(log, m, log[h].at) {
      assert front[h].Hinted?;
      if e != c.start {
        var d: nat :| d < m && front[d].Detached? && front[d].at == e;
        assert Moves(log[d]);
      }
    }
  }

  lemma StillExactly(c: Config, log: seq<Event>, m: nat, r: nat, wait: int)
    requires Honest(c, log) && m < r < |log| && Tabs(log[..m]) == {}
    ensures var e, change := EmptiedAt(log[..m], c.start), LastChange(log[..r + 1], c.sealerStart);
      StillFor(c, log, m, r, wait) <==> log[r].at - e >= wait && log[r].at - change >= wait
  {
    hide Tabs, EmptiedAt, LastChange, Genuine, Changes;
    var front, seen := log[..m], log[..r + 1];
    HonestThere(c, log, m);
    HonestThere(c, log, r + 1);
    MoveLatest(front, c.start);
    ChangeLatest(seen, c.sealerStart);
    forall x: nat | x <= r
      ensures seen[x] == log[x] && (Changes(seen, x) <==> Changes(log, x))
    {
      ChangesThere(log, r + 1, x);
    }
    forall x: nat | x <= r && Changes(log, x)
      ensures !Outside(log[x])
    {
      ChangesInside(log, x);
    }
    assert forall x: nat :: x < m ==> front[x] == log[x];
  }

  lemma ChangesInside(log: seq<Event>, x: nat)
    requires x < |log| && Changes(log, x)
    ensures !Outside(log[x])
  {
  }

  lemma BackoffExactly(c: Config, log: seq<Event>, r: nat)
    requires Honest(c, log) && r < |log| && log[r].Sampled? && c.interval > 0
    ensures NoBackoff(c, log, r) <==> PastBackoff(c, log, r)
  {
    hide Failures, LastFailure, FailedSince, BackoffAfter, Pow2, Genuine;
    var seen := log[..r + 1];
    HonestThere(c, log, r + 1);
    FailuresExactly(seen);
    FailedThere(log, r + 1);
    SampleFailsNothing(log, r);
    var failed := FailedSince(log, r);
    assert forall x: nat :: x <= r ==> seen[x] == log[x];
    assert forall x :: x in failed ==> x <= r by { FailedBefore(log, r); }
    if Failures(seen) > 0 {
      BackoffClosedForm(Failures(seen), c.interval);
    }
  }

  lemma FailedBefore(log: seq<Event>, r: nat)
    requires r <= |log|
    ensures forall x :: x in FailedSince(log, r) ==> x < r
  {
  }

  lemma SampleFailsNothing(log: seq<Event>, r: nat)
    requires r < |log| && log[r].Sampled?
    ensures FailedSince(log, r + 1) == FailedSince(log, r)
  {
    assert forall x: nat :: x in FailedSince(log, r) ==> x in FailedSince(log, r + 1);
  }

  /** The sealer's rule and the log's are one. */
  lemma RipeExactly(c: Config, log: seq<Event>, m: nat, r: nat)
    requires Honest(c, log) && m < r < |log| && log[r].Sampled? && Tabs(log[..m]) == {} && c.interval > 0
    ensures Ripe(c, log, m, r) <==>
      !Unreadable(log[r].reading) && !Clean(log[r].reading) && QuietLongEnough(c, log, m, r) && NoBackoff(c, log, r)
  {
    hide Tabs, EmptiedAt, LastHint, LastChange, Honest, NoBackoff, PastBackoff, StillFor, Beaconed, NobodyAt;
    NobodyExactly(log, m);
    BackoffExactly(c, log, r);
    BeaconExactly(c, log, m);
    StillExactly(c, log, m, r, Owed(c.interval, Beaconed(log, m)));
  }

  // ---------- Every run ----------

  ghost predicate Dated(c: Config, w: World) {
    && w.now >= c.start && (!w.phase.Waiting? ==> w.now >= c.sealerStart)
    && (forall x: nat :: x < |w.log| ==> w.log[x].at >= c.start && (!Outside(w.log[x]) ==> w.log[x].at >= c.sealerStart))
    && ((!w.phase.Waiting? || exists x :: 0 <= x < |w.log| && w.log[x].Looked?) ==> c.interval > 0)
    && forall n: nat :: n <= |w.log| && !ClosedIn(w.log[..n]) ==> Genuine(w.log[..n])
  }

  lemma DatedMore(c: Config, w: World, v: World, e: Event, t: int)
    requires Dated(c, w) && v.log == w.log + [e] && e.at == t && t >= w.now && v.now == t
    requires (Outside(e) && v.phase == w.phase) || (t >= c.sealerStart && c.interval > 0)
    requires !ClosedIn(w.log) && e.Detached? ==> e.stream in Tabs(w.log)
    ensures Dated(c, v)
  {
    hide Tabs, ClosedIn;
    ClosedMore(w.log, e);
    forall n: nat | n <= |v.log| && !ClosedIn(v.log[..n])
      ensures Genuine(v.log[..n])
    {
      assert w.log[..|w.log|] == w.log;
      if n <= |w.log| {
        PrefixKept(w.log, e, n);
      } else {
        assert v.log[..n] == v.log;
        GenuineMore(w.log, e);
      }
    }
    if !Outside(e) {
      assert c.interval > 0;
    } else if x :| 0 <= x < |v.log| && v.log[x].Looked? {
      assert x < |w.log| && w.log[x].Looked?;
    }
  }

  lemma GenuineMore(log: seq<Event>, e: Event)
    requires Genuine(log) && (e.Detached? ==> e.stream in Tabs(log))
    ensures Genuine(log + [e])
  {
    hide Tabs;
    var l := log + [e];
    forall d: nat | d < |l| && l[d].Detached?
      ensures l[d].stream in Tabs(l[..d])
    {
      PrefixKept(log, e, d);
      assert log[..|log|] == log;
    }
  }

  lemma DatedSame(c: Config, w: World, v: World, t: int)
    requires Dated(c, w) && v.log == w.log && t >= w.now && v.now == t && v.server.closed == w.server.closed
    requires v.phase.Waiting? || !w.phase.Waiting?
    ensures Dated(c, v)
  {
  }

  lemma DatedTab(c: Config, w: World, v: World, t: int)
    requires TabsOk(c, w) && Dated(c, w) && t >= w.now && TabStep(w, v, t)
    ensures Dated(c, v)
  {
    hide Dated, Tabs, EmptiedAt, LastHint, ClosedIn;
    if v.log == w.log {
      DatedSame(c, w, v, t);
    } else {
      DatedMore(c, w, v, v.log[|w.log|], t);
    }
  }

  lemma DatedStep(c: Config, w: World, v: World, t: int)
    requires TabsOk(c, w) && Dated(c, w) && t >= w.now && Act(c, w, v, t)
    ensures Dated(c, v)
  {
    hide TabsOk, Dated, Decide, Window, Tabs, TabStep;
    if TabStep(w, v, t) {
      DatedTab(c, w, v, t);
    } else {
      PhaseDated(c, w);
      LooksNeedInterval(c, w, v, t);
      if v.log == w.log {
        DatedSame(c, w, v, t);
      } else {
        DatedMore(c, w, v, v.log[|w.log|], t);
      }
    }
  }

  lemma PhaseDated(c: Config, w: World)
    requires Dated(c, w)
    ensures w.now >= c.start && (w.phase.Waiting? || (w.now >= c.sealerStart && c.interval > 0))
  {
  }

  lemma LooksNeedInterval(c: Config, w: World, v: World, t: int)
    ensures LookStep(c, w, v, t) ==> c.interval > 0
  {
  }

  lemma {:induction false} RunDated(c: Config, run: seq<World>, i: nat)
    requires Run(c, run) && i < |run|
    ensures Dated(c, run[i])
  {
    hide Inv, Dated, Act, Init;
    if i == 0 {
      assert Dated(c, run[0]) by { DatedFirst(c, run[0]); }
    } else {
      RunDated(c, run, i - 1);
      RunKeeps(c, run, i - 1);
      assert TabsOk(c, run[i - 1]) by { InvTabs(c, run[i - 1]); }
      var t: int :| t >= run[i - 1].now && Act(c, run[i - 1], run[i], t);
      DatedStep(c, run[i - 1], run[i], t);
    }
  }

  lemma DatedFirst(c: Config, w: World)
    requires Init(c, w)
    ensures Dated(c, w)
  {
  }

  lemma InvTabs(c: Config, w: World)
    requires Inv(c, w)
    ensures TabsOk(c, w) && TimeOk(w)
  {
  }

  lemma RunHonest(c: Config, run: seq<World>, i: nat, n: nat)
    requires Run(c, run) && i < |run| && n <= |run[i].log| && !ClosedIn(run[i].log[..n])
    ensures Honest(c, run[i].log[..n])
  {
    hide Run, Tabs, EmptiedAt, LastHint, ClosedIn, Inv, Genuine;
    RunKeeps(c, run, i);
    InvTabs(c, run[i]);
    RunDated(c, run, i);
  }

  /** What a look at m and a sample at r decided before the log's end: both are the last, and no seal has started since. */
  ghost predicate DecidedAt(c: Config, log: seq<Event>, m: nat, r: nat) {
    && m < r < |log| && log[m].Looked? && log[r].Sampled? && Ripe(c, log, m, r)
    && (forall x :: m < x < |log| && x != r ==> !log[x].Looked? && !log[x].Sampled?)
    && (forall x :: m <= x < |log| ==> !log[x].Started?) && StillOpen(log)
    && forall x: nat :: x < m && log[x].Started? ==> EndedBy(log, x, r)
  }

  /** The seal started at x has ended before r. */
  ghost predicate EndedBy(log: seq<Event>, x: nat, r: nat)
    requires x < r <= |log|
  {
    exists y: nat :: x < y < r && (log[y].FailedAt? || log[y].DoneAt?)
  }

  /** Before every seal of every run, a look and a sample decided for it, by the account of what happened alone. */
  lemma EverySealRipe(c: Config, run: seq<World>, i: nat, k: nat)
    requires Run(c, run) && i < |run| && k < |run[i].log| && run[i].log[k].Started?
    ensures exists m: nat, r: nat :: DecidedAt(c, run[i].log[..k], m, r)
  {
    hide Run, Inv, Tabs, EmptiedAt, LastHint, LastChange, Failures, LastFailure, BackoffAfter, Pending, WindowFor, Honest,
         Ripe, NoBackoff, QuietLongEnough, Window, ClosedIn;
    var log := run[i].log;
    EverySealJustified(c, run, i, k);
    var m: nat, r: nat :| JustifiedBy(c, log, k, m, r);
    RunHonest(c, run, i, k);
    RunDated(c, run, i);
    LookedThere(c, run[i], m);
    var before := log[..k];
    SameReasons(c, log, k, m, r);
    RipeExactly(c, before, m, r);
    NeverClosed(before);
    forall x: nat | x < m && before[x].Started?
      ensures EndedBy(before, x, r)
    {
      assert before[..r + 1] == log[..r + 1];
      HonestThere(c, before, r + 1);
      SealEnds(c, before[..r + 1], x, r);
      EndedThere(before, x, r);
    }
    assert DecidedAt(c, before, m, r);
  }

  lemma SealEnds(c: Config, seen: seq<Event>, x: nat, r: nat)
    requires Honest(c, seen) && x < r && |seen| == r + 1 && seen[x].Started? && seen[r].Sampled? && !Pending(seen)
    ensures EndedBy(seen, x, r)
  {
    var y := LastEnd(seen, x, c.sealerStart);
  }

  lemma EndedThere(log: seq<Event>, x: nat, r: nat)
    requires x < r < |log| && EndedBy(log[..r + 1], x, r)
    ensures EndedBy(log, x, r)
  {
  }

  lemma LookedThere(c: Config, w: World, m: nat)
    requires Dated(c, w) && m < |w.log| && w.log[m].Looked?
    ensures c.interval > 0
  {
  }

  lemma NeverClosed(log: seq<Event>)
    requires !ClosedIn(log)
    ensures StillOpen(log)
  {
  }

  lemma SameReasons(c: Config, log: seq<Event>, k: nat, m: nat, r: nat)
    requires m < r < k <= |log|
    ensures QuietLongEnough(c, log, m, r) <==> QuietLongEnough(c, log[..k], m, r)
    ensures NoBackoff(c, log, r) <==> NoBackoff(c, log[..k], r)
    ensures log[..k][..m] == log[..m]
  {
    hide Tabs, EmptiedAt, LastHint, LastChange, Failures, LastFailure, BackoffAfter, WindowFor;
    assert log[..k][..m] == log[..m] && log[..k][..r + 1] == log[..r + 1];
  }

  /**
    And the other way round: until the session closes a look is followed up exactly if nobody is
    attached, and a sample after it decides for a seal exactly if the log says one is due.
   */
  lemma DueExactly(c: Config, run: seq<World>, i: nat, t: int, p: Reading)
    requires Run(c, run) && 0 < i < |run| && run[i - 1].phase.Seen? && Sample(c, run[i - 1], run[i], t, p)
    requires t >= run[i - 1].now
    requires StillOpen(run[i - 1].log)
    ensures var m, log := run[i - 1].phase.m, run[i - 1].log + [Sampled(t, p)];
      && m < |log| - 1 && log[m].Looked? && (forall x :: m < x < |log| - 1 ==> !log[x].Looked? && !log[x].Sampled?)
      && (run[i].phase.Resolved? <==> Ripe(c, log, m, |log| - 1))
  {
    hide Run, Tabs, EmptiedAt, LastHint, LastChange, Failures, LastFailure, BackoffAfter, Pending, WindowFor, Honest,
         Ripe, NoBackoff, QuietLongEnough, ClosedIn, Remembered, StartsOk, TimeOk, TabsOk, SlotOk, Dated, Noted, Quiet;
    var w, e := run[i - 1], Sampled(t, p);
    RunKeeps(c, run, i - 1);
    RunDated(c, run, i - 1);
    PhaseDated(c, w);
    OpenStill(w.log);
    assert w.log[..|w.log|] == w.log;
    RunHonest(c, run, i - 1, |w.log|);
    DecidesRipe(c, w, w.phase.m, w.phase.idleSince, w.phase.hint, e);
  }

  /** Until the session closes a look is followed by a sample exactly if nobody is attached. */
  lemma LooksExactly(c: Config, run: seq<World>, i: nat, t: int)
    requires Run(c, run) && 0 < i < |run| && LookStep(c, run[i - 1], run[i], t)
    requires StillOpen(run[i - 1].log)
    ensures run[i].phase.Seen? <==> NobodyAt(run[i - 1].log, |run[i - 1].log|)
  {
    hide Run, Tabs, EmptiedAt, LastHint, ClosedIn, Remembered, StartsOk, TimeOk, PhaseOk, SlotOk;
    var w := run[i - 1];
    RunKeeps(c, run, i - 1);
    OpenStill(w.log);
    assert w.log[..|w.log|] == w.log;
    NobodyExactly(w.log, |w.log|);
  }

  /** A decision becomes a seal exactly if the volume is writable, no job runs, and the session has not begun to close. */
  lemma SealsExactly(c: Config, run: seq<World>, i: nat, t: int)
    requires Run(c, run) && 0 < i < |run| && ClaimStep(run[i - 1], run[i], t)
    ensures var w, v := run[i - 1], run[i];
      && (v.log == w.log + [Started(t)] || v.log == w.log)
      && (v.log == w.log + [Started(t)] <==>
            w.server.session == Writable && !AnyRunning(w.server) && StillOpen(w.log))
  {
    hide Run, Tabs, EmptiedAt, LastHint, Remembered, StartsOk, TimeOk, PhaseOk, SlotOk, ClaimIdle;
    var w := run[i - 1];
    RunKeeps(c, run, i - 1);
    GrantedExactly(w.server, false, false, t);
    if !ClosedIn(w.log) {
      NeverClosed(w.log);
    }
  }

  lemma OpenStill(log: seq<Event>)
    requires StillOpen(log)
    ensures !ClosedIn(log)
  {
  }

  lemma DecidesRipe(c: Config, w: World, m: nat, idleSince: int, hint: Option<int>, e: Event)
    requires w.memory == Remembered(c, w.log) && SeenOk(c, w.log, m, idleSince, hint) && !ClosedIn(w.log)
    requires Honest(c, w.log) && e.Sampled? && c.interval > 0 && e.at >= w.now && TimeOk(w) && w.now >= c.start
    requires w.now >= c.sealerStart
    ensures Decide(w.memory, Window(c), idleSince, hint, e.reading, e.at).1 <==> Ripe(c, w.log + [e], m, |w.log|)
  {
    hide LastReading, LastChange, Failures, LastFailure, BackoffAfter, Tabs, EmptiedAt, LastHint, ClosedIn, Ripe, Honest;
    var log := w.log + [e];
    NotedMemory(c, w, e);
    PrefixKept(w.log, e, m);
    assert log[..|w.log| + 1] == log;
    HonestMore(c, w, e);
    RipeExactly(c, log, m, |w.log|);
  }

  lemma HonestMore(c: Config, w: World, e: Event)
    requires Honest(c, w.log) && e.Sampled? && e.at >= w.now && TimeOk(w) && w.now >= c.start && w.now >= c.sealerStart
    ensures Honest(c, w.log + [e])
  {
    hide Tabs;
    GenuineMore(w.log, e);
  }
}
