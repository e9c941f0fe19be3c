/**
  Whole runs of a browse session: tabs come and go, publishes start and end, and the idle sealer
  samples in between, each action one atomic step under a clock that never goes back.  What a seal
  must have waited for is read off the log of what happened, not off anybody's memory of it.
 */
module IdleRuns {
  import opened Bytes
  import opened Powers
  import opened PublishSlot
  import opened IdleSealer

  datatype Event = Attached(at: int, stream: nat) | Detached(at: int, stream: nat) | Hinted(at: int) | Closing(at: int)
                 | Looked(at: int) | Sampled(at: int, reading: Reading) | Started(at: int) | FailedAt(at: int) | DoneAt(at: int)

  /**
    Snapshot interval, the session's start and the sealer's, which comes once the volume is open: the
    page is served before that, and tabs come and go.
   */
  datatype Config = Config(interval: int, start: int, sealerStart: int)

  // ---------- What the log says ----------

  /** The tabs attached at the end of the log. */
  ghost function Tabs(log: seq<Event>): set<nat> {
    if log == [] then {}
    else
      var before := Tabs(log[..|log| - 1]);
      match log[|log| - 1]
      case Attached(_, s) => before + {s}
      case Detached(_, s) => before - {s}
      case _ => before
  }

  /** When the last tab left, or the session began if none ever came. */
  ghost function EmptiedAt(log: seq<Event>, start: int): int {
    if log == [] then start
    else
      var front := log[..|log| - 1];
      match log[|log| - 1]
      case Detached(at, s) => if Tabs(front) != {} && Tabs(front) - {s} == {} then at else EmptiedAt(front, start)
      case _ => EmptiedAt(front, start)
  }

  ghost function LastHint(log: seq<Event>): Option<int> {
    if log == [] then None
    else match log[|log| - 1] case Hinted(at) => Some(at) case _ => LastHint(log[..|log| - 1])
  }

  ghost function LastReading(log: seq<Event>): Option<Reading> {
    if log == [] then None
    else match log[|log| - 1] case Sampled(_, r) => Some(r) case _ => LastReading(log[..|log| - 1])
  }

  /** The last sample to differ from the one before it, or the last successful seal if later. */
  ghost function LastChange(log: seq<Event>, start: int): int {
    if log == [] then start
    else
      var front := log[..|log| - 1];
      match log[|log| - 1]
      case Sampled(at, r) => if LastReading(front).Some? && LastReading(front) != Some(r) then at else LastChange(front, start)
      case DoneAt(at) => at
      case _ => LastChange(front, start)
  }

  /** Idle seals that have failed since the last that did not. */
  ghost function Failures(log: seq<Event>): nat {
    if log == [] then 0
    else match log[|log| - 1]
      case FailedAt(_) => Failures(log[..|log| - 1]) + 1
      case DoneAt(_) => 0
      case _ => Failures(log[..|log| - 1])
  }

  ghost function LastFailure(log: seq<Event>): int {
    if log == [] then 0
    else match log[|log| - 1] case FailedAt(at) => at case _ => LastFailure(log[..|log| - 1])
  }

  /** An idle seal has started and not ended. */
  ghost predicate Pending(log: seq<Event>) {
    log != [] && match log[|log| - 1]
      case Started(_) => true
      case FailedAt(_) => false
      case DoneAt(_) => false
      case _ => Pending(log[..|log| - 1])
  }

  ghost predicate ClosedIn(log: seq<Event>) {
    exists i :: 0 <= i < |log| && log[i].Closing?
  }

  ghost function Window(c: Config): int { QuietWindow(c.interval) }

  ghost function Remembered(c: Config, log: seq<Event>): Memory {
    var b := BackoffAfter(Failures(log), Window(c), c.interval);
    Memory(LastReading(log), LastChange(log, c.sealerStart), b,
           if Failures(log) == 0 then None else Some(LastFailure(log) + b))
  }

  /**
    The reasons for a seal started at position k: at the last look before it, m, nobody was attached,
    nobody had been since the last departure, and at the sample r that followed it, the last before the
    seal, there was something to publish, the quiet time since the later of that departure and the last
    change had run its window, and no backoff was running.
   */
  ghost predicate JustifiedBy(c: Config, log: seq<Event>, k: nat, m: nat, r: nat) {
    && m < r < k < |log| && log[m].Looked? && log[r].Sampled? && !ClosedIn(log[..k])
    && Tabs(log[..m]) == {} && !Unreadable(log[r].reading) && !Clean(log[r].reading)
    && QuietLongEnough(c, log, m, r) && NoBackoff(c, log, r) && LastOf(log, m, r, k)
    && !Pending(log[..r + 1]) && forall x :: m <= x < k ==> !log[x].Started?
  }

  /** m and r are the last look and the last sample before position k. */
  ghost predicate LastOf(log: seq<Event>, m: nat, r: nat, k: nat)
    requires k <= |log|
  {
    forall x :: m < x < k && x != r ==> !log[x].Looked? && !log[x].Sampled?
  }

  ghost predicate QuietLongEnough(c: Config, log: seq<Event>, m: nat, r: nat)
    requires m < r < |log|
  {
    var e, change := EmptiedAt(log[..m], c.start), LastChange(log[..r + 1], c.sealerStart);
    log[r].at - Max(e, change) >= WindowFor(Window(c), e, LastHint(log[..m]))
  }

  ghost predicate NoBackoff(c: Config, log: seq<Event>, r: nat)
    requires r < |log|
  {
    var failed := Failures(log[..r + 1]);
    failed > 0 ==> log[r].at >= LastFailure(log[..r + 1]) + BackoffAfter(failed, Window(c), c.interval)
  }

  ghost predicate Justified(c: Config, log: seq<Event>, k: nat) {
    exists m: nat, r: nat :: JustifiedBy(c, log, k, m, r)
  }

  // ---------- The world and its steps ----------

  /** Where the sealer is: between samples, past the look, past the decision, sealing, or settling up. */
  datatype Phase = Waiting | Seen(m: nat, idleSince: int, hint: Option<int>) | Resolved(m: nat, r: nat)
                 | Sealing(job: nat) | Settling(ok: bool)

  datatype World = World(now: int, server: Server, memory: Memory, phase: Phase, log: seq<Event>)

  ghost predicate Init(c: Config, w: World) {
    w == World(w.now, Fresh(c.start), Memory(None, c.sealerStart, 0, None), Waiting, []) && w.now >= c.start
  }

  function Logged(w: World, e: Event): World {
    w.(log := w.log + [e])
  }

  /** A tab attaches or leaves; after the session closes an arrival is turned away. */
  ghost predicate TabStep(w: World, v: World, t: int) {
    || (exists s: nat :: !w.server.closed
          && v == Logged(w, Attached(t, s)).(now := t, server := Subscribed(w.server, s)))
    || (w.server.closed && v == w.(now := t))
    || (exists s: nat :: Leaves(w, v, t, s))
    || v == Logged(w, Hinted(t)).(now := t, server := w.server.(hint := Some(t)))
    || v == Logged(w, Closing(t)).(now := t, server := w.server.(closed := true))
  }

  /** A stream that was never let in says goodbye too, but only once the session is closing. */
  ghost predicate Leaves(w: World, v: World, t: int, s: nat) {
    && (s in w.server.streams || w.server.closed)
    && v == Logged(w, Detached(t, s)).(now := t, server := Unsubscribed(w.server, s, t))
  }

  /** The volume opens; the button, a branch switch, and their ends. */
  ghost predicate SlotStep(w: World, v: World, t: int) {
    || (exists s: Session :: w.server.session.NotOpen? && v == w.(now := t, server := w.server.(session := s)))
    || v == w.(now := t, server := Publish(w.server, t).0)
    || (exists staged, busy :: v == w.(now := t, server := SwitchBranch(w.server, staged, busy, t).0))
    || (exists j: nat, ok :: OtherEnds(w, v, t, j, ok))
  }

  /** A publish or a branch switch ends; an idle seal ends in the sealer's own hands. */
  ghost predicate OtherEnds(w: World, v: World, t: int, j: nat, ok: bool) {
    && j < |w.server.jobs| && w.server.jobs[j].state.Running? && !w.server.jobs[j].reason.Idle?
    && v == w.(now := t, server := Finished(w.server, j, ok))
  }

  /** The sealer, once there is one, looks at the streams first. */
  ghost predicate LookStep(c: Config, w: World, v: World, t: int) {
    w.phase.Waiting? && Window(c) > 0 && t >= c.sealerStart
    && v == if w.server.streams != {} || w.server.idleSince.None? then w.(now := t)
            else Logged(w, Looked(t)).(now := t, phase := Seen(|w.log|, w.server.idleSince.value, w.server.hint))
  }

  /** Then at the overlay and the clock, and decides. */
  ghost predicate SampleStep(c: Config, w: World, v: World, t: int) {
    w.phase.Seen? && exists r: Reading :: Sample(c, w, v, t, r)
  }

  ghost predicate Sample(c: Config, w: World, v: World, t: int, r: Reading)
    requires w.phase.Seen?
  {
    v == if Unreadable(r) then w.(now := t, phase := Waiting)
         else
           var d := Decide(w.memory, Window(c), w.phase.idleSince, w.phase.hint, r, t);
           Logged(w, Sampled(t, r)).(now := t, memory := d.0,
                                     phase := if d.1 then Resolved(w.phase.m, |w.log|) else Waiting)
  }

  /** A decision to seal still has to get the slot. */
  ghost predicate ClaimStep(w: World, v: World, t: int) {
    w.phase.Resolved?
    && var claim := ClaimIdle(w.server, t);
       v == if claim.1 then Logged(w, Started(t)).(now := t, server := claim.0, phase := Sealing(|w.server.jobs|))
            else w.(now := t, phase := Waiting)
  }

  ghost predicate EndStep(w: World, v: World, t: int) {
    w.phase.Sealing? && w.phase.job < |w.server.jobs|
    && exists ok :: v == w.(now := t, server := Finished(w.server, w.phase.job, ok), phase := Settling(ok))
  }

  ghost predicate SettleStep(c: Config, w: World, v: World, t: int) {
    w.phase.Settling?
    && v == if w.phase.ok then Logged(w, DoneAt(t)).(now := t, memory := AfterSuccess(w.memory, t), phase := Waiting)
            else Logged(w, FailedAt(t)).(now := t, memory := AfterFailure(w.memory, Window(c), c.interval, t), phase := Waiting)
  }

  ghost predicate Step(c: Config, w: World, v: World) {
    exists t: int :: t >= w.now && Act(c, w, v, t)
  }

  ghost predicate Act(c: Config, w: World, v: World, t: int) {
    TabStep(w, v, t) || SlotStep(w, v, t) || LookStep(c, w, v, t) || SampleStep(c, w, v, t)
    || ClaimStep(w, v, t) || EndStep(w, v, t) || SettleStep(c, w, v, t)
  }

  // ---------- What every step keeps ----------

  ghost predicate TimeOk(w: World) {
    && (forall i :: 0 <= i < |w.log| ==> w.log[i].at <= w.now)
    && forall i, j :: 0 <= i < j < |w.log| ==> w.log[i].at <= w.log[j].at
  }

  /** Until the session closes the server's account of its tabs is the log's. */
  ghost predicate TabsOk(c: Config, w: World) {
    && (w.server.closed <==> ClosedIn(w.log)) && w.server.hint == LastHint(w.log)
    && (!w.server.closed ==>
          w.server.streams == Tabs(w.log)
          && w.server.idleSince == if Tabs(w.log) == {} then Some(EmptiedAt(w.log, c.start)) else None)
  }

  ghost predicate SeenOk(c: Config, log: seq<Event>, m: nat, idleSince: int, hint: Option<int>) {
    && m < |log| && log[m].Looked? && hint == LastHint(log[..m])
    && (!ClosedIn(log) ==> Tabs(log[..m]) == {} && idleSince == EmptiedAt(log[..m], c.start))
    && LastOf(log, m, m, |log|) && forall x :: m <= x < |log| ==> !log[x].Started?
  }

  /** The reasons so far; that the session is still open is seen to by the claim. */
  ghost predicate ResolvedOk(c: Config, log: seq<Event>, m: nat, r: nat) {
    && m < r < |log| && log[m].Looked? && log[r].Sampled?
    && !Unreadable(log[r].reading) && !Clean(log[r].reading)
    && (!ClosedIn(log) ==> Tabs(log[..m]) == {} && QuietLongEnough(c, log, m, r)) && NoBackoff(c, log, r)
    && LastOf(log, m, r, |log|) && !Pending(log[..r + 1]) && forall x :: m <= x < |log| ==> !log[x].Started?
  }

  ghost predicate PhaseOk(c: Config, w: World) {
    match w.phase
    case Waiting => !Pending(w.log)
    case Seen(m, idleSince, hint) => !Pending(w.log) && SeenOk(c, w.log, m, idleSince, hint)
    case Resolved(m, r) => !Pending(w.log) && ResolvedOk(c, w.log, m, r)
    case Sealing(j) => Pending(w.log) && j < |w.server.jobs|
    case Settling(_) => Pending(w.log)
  }

  ghost predicate StartsOk(c: Config, w: World) {
    forall k :: 0 <= k < |w.log| && w.log[k].Started? ==> Justified(c, w.log, k)
  }

  ghost predicate Inv(c: Config, w: World) {
    && SlotOk(w.server) && TimeOk(w) && TabsOk(c, w) && w.memory == Remembered(c, w.log)
    && PhaseOk(c, w) && StartsOk(c, w)
  }

  lemma InitInv(c: Config, w: World)
    requires Init(c, w)
    ensures Inv(c, w)
  {
  }

  // ---------- One more event ----------

  /** What an event changes of each account, and what it leaves alone. */
  lemma OneMore(log: seq<Event>, e: Event, start: int)
    ensures var l := log + [e];
      && Tabs(l) == (match e case Attached(_, s) => Tabs(log) + {s} case Detached(_, s) => Tabs(log) - {s} case _ => Tabs(log))
      && EmptiedAt(l, start) == (if e.Detached? && Tabs(log) != {} && Tabs(log) - {e.stream} == {} then e.at else EmptiedAt(log, start))
      && LastHint(l) == (if e.Hinted? then Some(e.at) else LastHint(log))
  {
    assert (log + [e])[..|log|] == log;
  }

  lemma OneMoreRemembered(log: seq<Event>, e: Event, start: int)
    ensures var l := log + [e];
      && LastReading(l) == (if e.Sampled? then Some(e.reading) else LastReading(log))
      && LastChange(l, start) == (if e.Sampled? && LastReading(log).Some? && LastReading(log) != Some(e.reading) then e.at
                                  else if e.DoneAt? then e.at else LastChange(log, start))
      && Failures(l) == (if e.FailedAt? then Failures(log) + 1 else if e.DoneAt? then 0 else Failures(log))
      && LastFailure(l) == (if e.FailedAt? then e.at else LastFailure(log))
      && (Pending(l) <==> e.Started? || (Pending(log) && !e.FailedAt? && !e.DoneAt?))
  {
    assert (log + [e])[..|log|] == log;
  }

  lemma ClosedMore(log: seq<Event>, e: Event)
    ensures ClosedIn(log + [e]) <==> ClosedIn(log) || e.Closing?
  {
    var l := log + [e];
    if i :| 0 <= i < |log| && log[i].Closing? {
      assert l[i].Closing?;
    }
    assert l[|log|] == e;
    if i :| 0 <= i < |l| && l[i].Closing? {
      assert i < |log| ==> log[i].Closing?;
    }
  }

  lemma PrefixKept(log: seq<Event>, e: Event, m: nat)
    requires m <= |log|
    ensures (log + [e])[..m] == log[..m]
  {
  }

  lemma TimeMore(w: World, v: World, e: Event, t: int)
    requires TimeOk(w) && t >= w.now && e.at == t && v.log == w.log + [e] && v.now == t
    ensures TimeOk(v)
  {
  }

  /** A seal once justified stays so. */
  lemma JustifiedKept(c: Config, log: seq<Event>, e: Event, k: nat)
    requires k < |log| && Justified(c, log, k)
    ensures Justified(c, log + [e], k)
  {
    hide Tabs, EmptiedAt, LastHint, LastChange, Failures, LastFailure, Pending, ClosedIn, BackoffAfter;
    var m: nat, r: nat :| JustifiedBy(c, log, k, m, r);
    PrefixKept(log, e, m);
    PrefixKept(log, e, r + 1);
    PrefixKept(log, e, k);
    assert JustifiedBy(c, log + [e], k, m, r);
  }

  lemma StartsKept(c: Config, w: World, v: World, e: Event)
    requires StartsOk(c, w) && v.log == w.log + [e] && !e.Started?
    ensures StartsOk(c, v)
  {
    hide Justified;
    forall k | 0 <= k < |v.log| && v.log[k].Started?
      ensures Justified(c, v.log, k)
    {
      assert k < |w.log|;
      JustifiedKept(c, w.log, e, k);
    }
  }

  lemma SeenKept(c: Config, log: seq<Event>, e: Event, m: nat, idleSince: int, hint: Option<int>)
    requires SeenOk(c, log, m, idleSince, hint) && !e.Started? && !e.Looked? && !e.Sampled?
    ensures SeenOk(c, log + [e], m, idleSince, hint)
  {
    hide Tabs, EmptiedAt, LastHint, ClosedIn;
    PrefixKept(log, e, m);
    ClosedMore(log, e);
  }

  lemma ResolvedKept(c: Config, log: seq<Event>, e: Event, m: nat, r: nat)
    requires ResolvedOk(c, log, m, r) && !e.Started? && !e.Looked? && !e.Sampled?
    ensures ResolvedOk(c, log + [e], m, r)
  {
    hide Tabs, EmptiedAt, LastHint, LastChange, Failures, LastFailure, Pending, ClosedIn, BackoffAfter;
    PrefixKept(log, e, m);
    PrefixKept(log, e, r + 1);
    ClosedMore(log, e);
  }

  /** The sealer's own account is untouched by what the browser does. */
  ghost predicate Outside(e: Event) {
    e.Attached? || e.Detached? || e.Hinted? || e.Closing?
  }

  lemma OutsideKeeps(c: Config, w: World, v: World, e: Event, t: int)
    requires Inv(c, w) && Outside(e) && e.at == t && t >= w.now
    requires v.log == w.log + [e] && v.now == t && v.memory == w.memory && v.phase == w.phase
    requires v.server.jobs == w.server.jobs && v.server.current == w.server.current && TabsOk(c, v)
    ensures Inv(c, v)
  {
    hide SeenOk, ResolvedOk, Pending, Failures, LastReading, LastChange, LastFailure, TabsOk, StartsOk, TimeOk, SlotOk,
         BackoffAfter;
    TimeMore(w, v, e, t);
    OneMoreRemembered(w.log, e, c.sealerStart);
    StartsKept(c, w, v, e);
    SameSlot(w.server, v.server);
    match w.phase {
      case Seen(m, idleSince, hint) => SeenKept(c, w.log, e, m, idleSince, hint);
      case Resolved(m, r) => ResolvedKept(c, w.log, e, m, r);
      case _ =>
    }
  }

  lemma SameSlot(a: Server, b: Server)
    requires SlotOk(a) && b.jobs == a.jobs && b.current == a.current
    ensures SlotOk(b)
  {
  }

  lemma TabKeeps(c: Config, w: World, v: World, t: int)
    requires Inv(c, w) && t >= w.now && TabStep(w, v, t)
    ensures Inv(c, v)
  {
    hide SeenOk, ResolvedOk, Pending, Failures, LastReading, LastChange, LastFailure, StartsOk, TimeOk, SlotOk,
         BackoffAfter, Tabs, EmptiedAt, LastHint, ClosedIn, PhaseOk;
    if s: nat :| !w.server.closed && v == Logged(w, Attached(t, s)).(now := t, server := Subscribed(w.server, s)) {
      OneMore(w.log, Attached(t, s), c.start);
      ClosedMore(w.log, Attached(t, s));
      OutsideKeeps(c, w, v, Attached(t, s), t);
    } else if w.server.closed && v == w.(now := t) {
      LaterKeeps(c, w, v, t);
    } else if s: nat :| Leaves(w, v, t, s) {
      OneMore(w.log, Detached(t, s), c.start);
      ClosedMore(w.log, Detached(t, s));
      OutsideKeeps(c, w, v, Detached(t, s), t);
    } else if v == Logged(w, Hinted(t)).(now := t, server := w.server.(hint := Some(t))) {
      OneMore(w.log, Hinted(t), c.start);
      ClosedMore(w.log, Hinted(t));
      OutsideKeeps(c, w, v, Hinted(t), t);
    } else {
      OneMore(w.log, Closing(t), c.start);
      ClosedMore(w.log, Closing(t));
      OutsideKeeps(c, w, v, Closing(t), t);
    }
  }

  lemma LaterKeeps(c: Config, w: World, v: World, t: int)
    requires Inv(c, w) && t >= w.now && v == w.(now := t)
    ensures Inv(c, v)
  {
    hide SeenOk, ResolvedOk, Pending, Remembered, StartsOk, SlotOk, TabsOk;
    assert TabsOk(c, v) by { SameTabs(c, w, v); }
    assert StartsOk(c, v) by { SameStarts(c, w, v); }
  }

  lemma SameTabs(c: Config, w: World, v: World)
    requires TabsOk(c, w) && v.log == w.log && v.server.closed == w.server.closed && v.server.hint == w.server.hint
    requires v.server.streams == w.server.streams && v.server.idleSince == w.server.idleSince
    ensures TabsOk(c, v)
  {
  }

  lemma SameStarts(c: Config, w: World, v: World)
    requires StartsOk(c, w) && v.log == w.log
    ensures StartsOk(c, v)
  {
  }

  /** Steps that log nothing. */
  lemma SilentKeeps(c: Config, w: World, v: World, t: int)
    requires Inv(c, w) && t >= w.now && v == w.(now := t, server := v.server, phase := v.phase)
    requires SlotOk(v.server) && v.server.closed == w.server.closed && v.server.hint == w.server.hint
    requires v.server.streams == w.server.streams && v.server.idleSince == w.server.idleSince && PhaseOk(c, v)
    ensures Inv(c, v)
  {
    hide PhaseOk, SeenOk, ResolvedOk, Pending, Remembered, StartsOk, SlotOk, TabsOk;
    SameTabs(c, w, v);
    SameStarts(c, w, v);
  }

  lemma PhaseStays(c: Config, w: World, v: World)
    requires PhaseOk(c, w) && v.log == w.log && v.phase == w.phase && |w.server.jobs| <= |v.server.jobs|
    ensures PhaseOk(c, v)
  {
  }

  lemma SlotKeeps(c: Config, w: World, v: World, t: int)
    requires Inv(c, w) && t >= w.now && SlotStep(w, v, t)
    ensures Inv(c, v)
  {
    hide SeenOk, ResolvedOk, Pending, Remembered, StartsOk, TabsOk, TimeOk, PhaseOk, SlotOk;
    PhaseStays(c, w, v);
    if staged, busy :| v == w.(now := t, server := SwitchBranch(w.server, staged, busy, t).0) {
      SlotExclusive(w.server, staged, busy, t);
    } else {
      SlotExclusive(w.server, false, false, t);
    }
    if j: nat, ok :| OtherEnds(w, v, t, j, ok) {
      FinishKeepsSlot(w.server, j, ok);
    }
    if v.server.jobs == w.server.jobs && v.server.current == w.server.current {
      SameSlot(w.server, v.server);
    }
    SilentKeeps(c, w, v, t);
  }

  // ---------- The sealer's steps ----------

  lemma LookKeeps(c: Config, w: World, v: World, t: int)
    requires Inv(c, w) && t >= w.now && LookStep(c, w, v, t)
    ensures Inv(c, v)
  {
    hide Remembered, StartsOk, SlotOk, TimeOk;
    if w.server.streams != {} || w.server.idleSince.None? {
      LaterKeeps(c, w, v, t);
    } else {
      var e := Looked(t);
      InsideKeeps(c, w, v, e, t);
      SameMemory(c, w, e);
      PrefixKept(w.log, e, |w.log|);
      assert w.log[..|w.log|] == w.log;
      ClosedMore(w.log, e);
      OneMoreRemembered(w.log, e, c.sealerStart);
    }
  }

  /** What no event of the sealer's changes. */
  lemma InsideKeeps(c: Config, w: World, v: World, e: Event, t: int)
    requires Inv(c, w) && !Outside(e) && !e.Started? && e.at == t && t >= w.now
    requires v.log == w.log + [e] && v.now == t && v.server == w.server
    ensures SlotOk(v.server) && TimeOk(v) && TabsOk(c, v) && StartsOk(c, v)
  {
    hide Remembered, StartsOk, SlotOk, TimeOk, PhaseOk, ClosedIn;
    TimeMore(w, v, e, t);
    StartsKept(c, w, v, e);
    OneMore(w.log, e, c.start);
    ClosedMore(w.log, e);
  }

  lemma SameMemory(c: Config, w: World, e: Event)
    requires w.memory == Remembered(c, w.log) && !e.Sampled? && !e.FailedAt? && !e.DoneAt?
    ensures w.memory == Remembered(c, w.log + [e])
  {
    hide LastReading, LastChange, Failures, LastFailure, BackoffAfter;
    OneMoreRemembered(w.log, e, c.sealerStart);
  }

  lemma SampleKeeps(c: Config, w: World, v: World, t: int)
    requires Inv(c, w) && t >= w.now && SampleStep(c, w, v, t)
    ensures Inv(c, v)
  {
    hide Remembered, StartsOk, SlotOk, TimeOk, TabsOk, SeenOk, ResolvedOk, Decide, Pending;
    var r: Reading :| Sample(c, w, v, t, r);
    if Unreadable(r) {
      SilentKeeps(c, w, v, t);
    } else {
      var e := Sampled(t, r);
      var d := Decide(w.memory, Window(c), w.phase.idleSince, w.phase.hint, r, t);
      InsideKeeps(c, w, v, e, t);
      DecideNotes(w.memory, Window(c), w.phase.idleSince, w.phase.hint, r, t);
      NotedMemory(c, w, e);
      OneMoreRemembered(w.log, e, c.sealerStart);
      if d.1 {
        DecidedOk(c, w, w.phase.m, w.phase.idleSince, w.phase.hint, e);
      }
    }
  }

  lemma DecideNotes(m: Memory, window: int, idleSince: int, hint: Option<int>, r: Reading, now: int)
    requires !Unreadable(r)
    ensures Decide(m, window, idleSince, hint, r, now).0 == Noted(m, r, now)
  {
  }

  lemma NotedMemory(c: Config, w: World, e: Event)
    requires w.memory == Remembered(c, w.log) && e.Sampled?
    ensures Noted(w.memory, e.reading, e.at) == Remembered(c, w.log + [e])
  {
    hide LastReading, LastChange, Failures, LastFailure, BackoffAfter;
    OneMoreRemembered(w.log, e, c.sealerStart);
  }

  lemma DecidedOk(c: Config, w: World, m: nat, idleSince: int, hint: Option<int>, e: Event)
    requires w.memory == Remembered(c, w.log) && SeenOk(c, w.log, m, idleSince, hint) && !Pending(w.log)
    requires e.Sampled? && !Unreadable(e.reading) && Decide(w.memory, Window(c), idleSince, hint, e.reading, e.at).1
    ensures ResolvedOk(c, w.log + [e], m, |w.log|)
  {
    hide LastReading, LastChange, Failures, LastFailure, BackoffAfter, Tabs, EmptiedAt, LastHint, ClosedIn, Pending;
    var log := w.log + [e];
    NotedMemory(c, w, e);
    OneMoreRemembered(w.log, e, c.sealerStart);
    PrefixKept(w.log, e, m);
    ClosedMore(w.log, e);
    assert log[..|w.log| + 1] == log;
  }

  lemma ClaimKeeps(c: Config, w: World, v: World, t: int)
    requires Inv(c, w) && t >= w.now && ClaimStep(w, v, t)
    ensures Inv(c, v)
  {
    hide Remembered, StartsOk, TimeOk, TabsOk, ResolvedOk, Pending;
    if ClaimIdle(w.server, t).1 {
      ClaimKeepsSlot(w.server, Idle, t);
      StartKeeps(c, w, v, t);
    } else {
      SilentKeeps(c, w, v, t);
    }
  }

  lemma StartKeeps(c: Config, w: World, v: World, t: int)
    requires Inv(c, w) && t >= w.now && ClaimStep(w, v, t) && ClaimIdle(w.server, t).1 && SlotOk(v.server)
    ensures Inv(c, v)
  {
    hide Remembered, TimeOk, ResolvedOk, Pending, ClosedIn, Justified, Tabs, EmptiedAt, LastHint, SlotOk;
    var e := Started(t);
    TimeMore(w, v, e, t);
    SameMemory(c, w, e);
    OneMoreRemembered(w.log, e, c.sealerStart);
    OneMore(w.log, e, c.start);
    ClosedMore(w.log, e);
    StartJustified(c, w.log, e, w.phase.m, w.phase.r);
    forall k | 0 <= k < |v.log| && v.log[k].Started?
      ensures Justified(c, v.log, k)
    {
      if k < |w.log| {
        JustifiedKept(c, w.log, e, k);
      }
    }
  }

  lemma StartJustified(c: Config, log: seq<Event>, e: Event, m: nat, r: nat)
    requires ResolvedOk(c, log, m, r) && !ClosedIn(log)
    ensures Justified(c, log + [e], |log|)
  {
    hide LastChange, Failures, LastFailure, BackoffAfter, Tabs, EmptiedAt, LastHint, ClosedIn, Pending;
    PrefixKept(log, e, m);
    PrefixKept(log, e, r + 1);
    PrefixKept(log, e, |log|);
    assert log[..|log|] == log;
    assert JustifiedBy(c, log + [e], |log|, m, r);
  }

  lemma EndKeeps(c: Config, w: World, v: World, t: int)
    requires Inv(c, w) && t >= w.now && EndStep(w, v, t)
    ensures Inv(c, v)
  {
    hide Remembered, StartsOk, TimeOk, TabsOk, Pending, SlotOk;
    var ok :| v == w.(now := t, server := Finished(w.server, w.phase.job, ok), phase := Settling(ok));
    FinishKeepsSlot(w.server, w.phase.job, ok);
    SilentKeeps(c, w, v, t);
  }

  lemma SettleKeeps(c: Config, w: World, v: World, t: int)
    requires Inv(c, w) && t >= w.now && SettleStep(c, w, v, t)
    ensures Inv(c, v)
  {
    hide Remembered, StartsOk, TimeOk, TabsOk, Pending, SlotOk;
    var e := if w.phase.ok then DoneAt(t) else FailedAt(t);
    InsideKeeps(c, w, v, e, t);
    OneMoreRemembered(w.log, e, c.sealerStart);
    SettledMemory(c, w, e);
  }

  lemma SettledMemory(c: Config, w: World, e: Event)
    requires w.memory == Remembered(c, w.log)
    ensures e.DoneAt? ==> AfterSuccess(w.memory, e.at) == Remembered(c, w.log + [e])
    ensures e.FailedAt? ==> AfterFailure(w.memory, Window(c), c.interval, e.at) == Remembered(c, w.log + [e])
  {
    hide LastReading, LastChange, Failures, LastFailure;
    OneMoreRemembered(w.log, e, c.sealerStart);
  }

  lemma StepKeeps(c: Config, w: World, v: World)
    requires Inv(c, w) && Step(c, w, v)
    ensures Inv(c, v)
  {
    var t: int :| t >= w.now && Act(c, w, v, t);
    ActKeeps(c, w, v, t);
  }

  lemma ActKeeps(c: Config, w: World, v: World, t: int)
    requires Inv(c, w) && t >= w.now && Act(c, w, v, t)
    ensures Inv(c, v)
  {
    hide Inv, TabStep, LookStep, SampleStep, EndStep, SettleStep, SlotStep, ClaimStep;
    if TabStep(w, v, t) {
      TabKeeps(c, w, v, t);
    } else if SlotStep(w, v, t) {
      SlotKeeps(c, w, v, t);
    } else if LookStep(c, w, v, t) {
      LookKeeps(c, w, v, t);
    } else if SampleStep(c, w, v, t) {
      SampleKeeps(c, w, v, t);
    } else if ClaimStep(w, v, t) {
      ClaimKeeps(c, w, v, t);
    } else if EndStep(w, v, t) {
      EndKeeps(c, w, v, t);
    } else {
      SettleKeeps(c, w, v, t);
    }
  }

  // ---------- Every run ----------

  ghost predicate Run(c: Config, run: seq<World>) {
    run != [] && Init(c, run[0]) && forall i :: 0 < i < |run| ==> Step(c, run[i - 1], run[i])
  }

  lemma {:induction false} RunKeeps(c: Config, run: seq<World>, i: nat)
    requires Run(c, run) && i < |run|
    ensures Inv(c, run[i])
  {
    hide Inv, Init, Step, SlotOk;
    if i == 0 {
      InitInv(c, run[0]);
    } else {
      RunKeeps(c, run, i - 1);
      StepKeeps(c, run[i - 1], run[i]);
    }
  }

  /** At most one job runs at any time, whoever asked for it. */
  lemma OneJobAtATime(c: Config, run: seq<World>, i: nat, a: nat, b: nat)
    requires Run(c, run) && i < |run| && a < |run[i].server.jobs| && b < |run[i].server.jobs|
    requires run[i].server.jobs[a].state.Running? && run[i].server.jobs[b].state.Running?
    ensures a == b
  {
    hide Run, TimeOk, TabsOk, PhaseOk, StartsOk;
    RunKeeps(c, run, i);
    OneRunning(run[i].server, a, b);
  }

  /** Every idle seal of every run had its reasons, and none was started after the session began to close. */
  lemma EverySealJustified(c: Config, run: seq<World>, i: nat, k: nat)
    requires Run(c, run) && i < |run| && k < |run[i].log| && run[i].log[k].Started?
    ensures Justified(c, run[i].log, k) && !ClosedIn(run[i].log[..k])
  {
    hide Run, TimeOk, TabsOk, PhaseOk, SlotOk;
    RunKeeps(c, run, i);
    hide Inv;
    var m: nat, r: nat :| JustifiedBy(c, run[i].log, k, m, r);
  }

  // ---------- What the reasons mean ----------

  /** Nobody attached, and nobody since the last departure: the set has been empty from then on. */
  lemma {:induction false} EmptySince(log: seq<Event>, start: int) returns (j: nat)
    requires Tabs(log) == {}
    ensures j <= |log| && (forall i :: j <= i <= |log| ==> Tabs(log[..i]) == {})
    ensures if j == 0 then EmptiedAt(log, start) == start
            else log[j - 1].Detached? && Tabs(log[..j - 1]) != {} && EmptiedAt(log, start) == log[j - 1].at
  {
    if log == [] {
      j := 0;
      return;
    }
    var n := |log| - 1;
    assert log[..|log|] == log;
    if Tabs(log[..n]) != {} {
      j := |log|;
      return;
    }
    j := EmptySince(log[..n], start);
    forall i | j <= i <= |log|
      ensures Tabs(log[..i]) == {}
    {
      if i < |log| {
        assert log[..n][..i] == log[..i];
      }
    }
    if j > 0 {
      assert log[..n][..j - 1] == log[..j - 1];
    }
  }

  /** Any tab seen before the look had left by the instant the quiet time runs from. */
  lemma {:induction false} LeftAfter(log: seq<Event>, start: int, j: nat)
    requires j < |log| && log[j].Attached? && Tabs(log) == {}
    requires forall a, b :: 0 <= a < b < |log| ==> log[a].at <= log[b].at
    ensures EmptiedAt(log, start) >= log[j].at
  {
    var from := EmptySince(log, start);
    if from <= j {
      AttachedThere(log, j);
      assert false;
    }
  }

  lemma AttachedThere(log: seq<Event>, j: nat)
    requires j < |log| && log[j].Attached?
    ensures log[j].stream in Tabs(log[..j + 1])
  {
    assert log[..j + 1][..j] == log[..j];
  }

  /** The look and the sample that justify a seal are the last before it, so there is one pair of them. */
  lemma OnePair(c: Config, log: seq<Event>, k: nat, m: nat, r: nat, n: nat, q: nat)
    requires JustifiedBy(c, log, k, m, r) && JustifiedBy(c, log, k, n, q)
    ensures m == n && r == q
  {
  }

  /** At d the last tab left, and until position m nobody came. */
  ghost predicate EmptiesUntil(log: seq<Event>, d: nat, m: nat) {
    && d < m <= |log| && log[d].Detached? && Tabs(log[..d]) != {} && forall x :: d < x <= m ==> Tabs(log[..x]) == {}
  }

  /**
    A browser that comes back before the sealer looks, for however short a time, makes the seal wait
    its whole window again: the quiet time runs from a departure after it, which is so exactly when
    the look came after the attach.
   */
  lemma ReconnectRestarts(c: Config, run: seq<World>, i: nat, k: nat, j: nat, m: nat, r: nat)
    requires Run(c, run) && i < |run| && j < k < |run[i].log| && run[i].log[j].Attached?
    requires JustifiedBy(c, run[i].log, k, m, r)
    ensures var log, since := run[i].log, EmptiedAt(run[i].log[..m], c.start);
      && (j < m ==> since >= log[j].at && log[r].at - log[j].at >= WindowFor(Window(c), since, LastHint(log[..m])))
      && (j < m <==> exists d: nat :: j < d && EmptiesUntil(log, d, m) && log[d].at == since)
  {
    hide Run, TabsOk, PhaseOk, SlotOk, StartsOk;
    RunKeeps(c, run, i);
    var log := run[i].log;
    if j < m {
      assert log[..m][j] == log[j];
      LeftAfter(log[..m], c.start, j);
      var d := DepartureAfter(log, m, c.start, j);
    }
  }

  lemma DepartureAfter(log: seq<Event>, m: nat, start: int, j: nat) returns (d: nat)
    requires j < m <= |log| && log[j].Attached? && Tabs(log[..m]) == {}
    ensures j < d && EmptiesUntil(log, d, m) && log[d].at == EmptiedAt(log[..m], start)
  {
    var from := EmptySince(log[..m], start);
    assert forall x :: 0 <= x <= m ==> log[..m][..x] == log[..x];
    AttachedThere(log, j);
    assert from > j + 1;
    d := from - 1;
  }

  /** Nobody is attached from the look to the start of the seal, unless a tab attached in between. */
  lemma UnattendedExactly(c: Config, log: seq<Event>, k: nat, m: nat, r: nat)
    requires JustifiedBy(c, log, k, m, r)
    ensures (forall x :: m <= x <= k ==> Tabs(log[..x]) == {}) <==> (forall j :: m < j < k ==> !log[j].Attached?)
  {
    if forall j :: m < j < k ==> !log[j].Attached? {
      NobodyComes(log, m, k);
    }
    if j :| m < j < k && log[j].Attached? {
      AttachedThere(log, j);
      assert Tabs(log[..j + 1]) != {};
    }
  }

  lemma {:induction false} NobodyComes(log: seq<Event>, m: nat, k: nat)
    requires m <= k <= |log| && Tabs(log[..m]) == {} && forall j :: m <= j < k ==> !log[j].Attached?
    ensures forall x :: m <= x <= k ==> Tabs(log[..x]) == {}
  {
    if m < k {
      NobodyComes(log, m, k - 1);
      assert log[..k][..k - 1] == log[..k - 1];
    }
  }

  // ---------- A reconnect the sealer does not see ----------

  const HOURLY := Config(3600 * SECOND, 0, 0)

  const STAGED := Reading(1, 0, 0)

  const LATE := 100 * SECOND

  /** The look finds nobody, a tab attaches, and the sample and the claim go on regardless. */
  ghost function LateRun(): seq<World> {
    var ready := World(LATE, Fresh(0).(session := Writable), Memory(None, 0, 0, None), Waiting, []);
    var looked := Logged(ready, Looked(LATE)).(phase := Seen(0, 0, None));
    var back := Logged(looked, Attached(LATE, 7)).(server := Subscribed(looked.server, 7));
    var decided := Logged(back, Sampled(LATE, STAGED)).(memory := Memory(Some(STAGED), 0, 0, None), phase := Resolved(0, 2));
    var sealing := Logged(decided, Started(LATE)).(server := Claimed(decided.server, Idle, LATE), phase := Sealing(0));
    [ready.(server := Fresh(0)), ready, looked, back, decided, sealing]
  }

  /**
    The condition is needed: a tab that attaches between the look and the claim is not seen, and the
    seal starts at the very instant it attached, while it is attached.
   */
  lemma LateReconnectUnseen()
    ensures Run(HOURLY, LateRun())
    ensures var log := LateRun()[5].log;
      && log[1].Attached? && log[3].Started? && log[3].at == log[1].at && Tabs(log[..3]) == {7}
      && JustifiedBy(HOURLY, log, 3, 0, 2)
  {
    var run := LateRun();
    LateSteps();
    RunKeeps(HOURLY, run, 5);
    var log := run[5].log;
    assert log[..1] == [log[0]] && log[..2] == [log[0], log[1]] && log[..3] == [log[0], log[1], log[2]];
    EverySealJustified(HOURLY, run, 5, 3);
  }

  lemma LateSteps()
    ensures Run(HOURLY, LateRun())
  {
    var run := LateRun();
    assert SlotStep(run[0], run[1], LATE);
    assert LookStep(HOURLY, run[1], run[2], LATE);
    assert TabStep(run[2], run[3], LATE);
    assert Sample(HOURLY, run[3], run[4], LATE, STAGED);
    assert ClaimStep(run[4], run[5], LATE);
    forall i | 0 < i < |run|
      ensures Step(HOURLY, run[i - 1], run[i])
    {
      assert Act(HOURLY, run[i - 1], run[i], LATE);
    }
  }

  // ---------- Attempts ----------

  /** The event that ended the last seal before the log's end. */
  lemma {:induction false} LastEnd(log: seq<Event>, k: nat, start: int) returns (x: nat)
    requires k < |log| && log[k].Started? && !Pending(log)
    requires forall a, b :: 0 <= a < b < |log| ==> log[a].at <= log[b].at
    ensures k < x < |log| && (log[x].FailedAt? || log[x].DoneAt?)
    ensures log[x].FailedAt? ==> Failures(log) > 0 && LastFailure(log) == log[x].at
    ensures log[x].DoneAt? ==> LastChange(log, start) >= log[x].at
  {
    var n := |log| - 1;
    if log[n].FailedAt? || log[n].DoneAt? {
      x := n;
    } else {
      x := LastEnd(log[..n], k, start);
      assert log[..n][x] == log[x];
    }
  }

  /**
    The wait between attempts: after a failure the whole backoff, and after anything at least the
    shorter of the window and the hinted one, so attempts cannot crowd.
   */
  lemma AttemptsApart(c: Config, run: seq<World>, i: nat, k: nat, l: nat)
    requires Run(c, run) && i < |run| && k < l < |run[i].log| && run[i].log[k].Started? && run[i].log[l].Started?
    requires c.interval > 0
    ensures run[i].log[l].at - run[i].log[k].at >= Min(Window(c), HINTED_WINDOW)
  {
    hide Run, TabsOk, PhaseOk, SlotOk;
    RunKeeps(c, run, i);
    var log := run[i].log;
    EverySealJustified(c, run, i, l);
    var m: nat, r: nat :| JustifiedBy(c, log, l, m, r);
    AttemptsApartIn(c, log, k, l, m, r);
  }

  lemma AttemptsApartIn(c: Config, log: seq<Event>, k: nat, l: nat, m: nat, r: nat)
    requires JustifiedBy(c, log, l, m, r) && k < l && log[k].Started? && c.interval > 0
    requires forall a, b :: 0 <= a < b < |log| ==> log[a].at <= log[b].at
    ensures k < r && log[l].at - log[k].at >= Min(Window(c), HINTED_WINDOW)
  {
    hide Tabs, EmptiedAt, LastHint, ClosedIn, Pending, LastChange, Failures, LastFailure, BackoffAfter;
    assert k < m;
    var seen := log[..r + 1];
    assert seen[k] == log[k];
    var x := LastEnd(seen, k, c.sealerStart);
    assert log[x] == seen[x];
    if seen[x].FailedAt? {
      BackoffAtLeastWindow(Failures(seen), c.interval);
    }
  }

  /** After n failures in a row the next attempt waits exactly the n-th backoff, doubled up to the interval. */
  lemma BackoffRespected(c: Config, run: seq<World>, i: nat, k: nat)
    requires Run(c, run) && i < |run| && k < |run[i].log| && run[i].log[k].Started? && c.interval > 0
    ensures exists m: nat, r: nat :: JustifiedBy(c, run[i].log, k, m, r)
              && var failed := Failures(run[i].log[..r + 1]);
                 (failed > 0 ==> run[i].log[r].at - LastFailure(run[i].log[..r + 1])
                                   >= Min(Pow2(failed - 1) * Window(c), c.interval))
  {
    hide Run, TabsOk, PhaseOk, SlotOk, TimeOk, Failures, LastFailure, BackoffAfter, Pow2;
    EverySealJustified(c, run, i, k);
    var m: nat, r: nat :| JustifiedBy(c, run[i].log, k, m, r);
    var failed := Failures(run[i].log[..r + 1]);
    if failed > 0 {
      BackoffClosedForm(failed, c.interval);
    }
  }

  // ---------- Attempts that fail ----------

  lemma {:induction false} NoFewerFailures(log: seq<Event>, p: nat, e: nat)
    requires p <= e <= |log| && forall x :: p <= x < e ==> !log[x].DoneAt?
    ensures Failures(log[..p]) <= Failures(log[..e])
    ensures (exists x :: p <= x < e && log[x].FailedAt?) ==> Failures(log[..p]) < Failures(log[..e])
  {
    if p < e {
      NoFewerFailures(log, p, e - 1);
      assert log[..e][..e - 1] == log[..e - 1];
    }
  }

  /** From one attempt to a later one, none between having succeeded, there is a failure and the wait after it. */
  lemma FailedBetween(c: Config, log: seq<Event>, p: nat, l: nat)
    requires p < l < |log| && log[p].Started? && log[l].Started? && Justified(c, log, l) && c.interval > 0
    requires forall a, b :: 0 <= a < b < |log| ==> log[a].at <= log[b].at
    requires forall x :: p <= x < l ==> !log[x].DoneAt?
    ensures Failures(log[..l]) > Failures(log[..p])
    ensures log[l].at - log[p].at >= BackoffAfter(Failures(log[..p]) + 1, Window(c), c.interval)
  {
    hide Tabs, EmptiedAt, LastHint, ClosedIn, Pending, LastChange, Failures, LastFailure, BackoffAfter;
    var m: nat, r: nat :| JustifiedBy(c, log, l, m, r);
    assert p < m;
    var seen := log[..r + 1];
    assert seen[p] == log[p];
    var x := LastEnd(seen, p, c.sealerStart);
    assert log[x] == seen[x];
    NoFewerFailures(log, p, r + 1);
    NoFewerFailures(log, r + 1, l);
    BackoffNeverShrinks(Failures(log[..p]) + 1, Failures(seen), c.interval);
  }

  ghost function Starts(log: seq<Event>): nat {
    if log == [] then 0 else Starts(log[..|log| - 1]) + (if log[|log| - 1].Started? then 1 else 0)
  }

  /** The last attempt before e, and what the failures of those before it have cost. */
  lemma {:induction false} SpreadSoFar(c: Config, log: seq<Event>, k: nat, e: nat) returns (p: nat)
    requires k < e <= |log| && log[k].Started? && c.interval > 0
    requires forall j :: 0 <= j < |log| && log[j].Started? ==> Justified(c, log, j)
    requires forall a, b :: 0 <= a < b < |log| ==> log[a].at <= log[b].at
    requires forall x :: k <= x < e ==> !log[x].DoneAt?
    ensures k <= p < e && log[p].Started? && Starts(log[k..e]) > 0
    ensures Failures(log[..p]) >= Failures(log[..k]) + Starts(log[k..e]) - 1
    ensures log[p].at - log[k].at >= Waits(Failures(log[..k]), Starts(log[k..e]) - 1, Window(c), c.interval)
    decreases e
  {
    hide Failures, BackoffAfter, Justified;
    assert log[k..e][..e - 1 - k] == log[k..e - 1];
    if e == k + 1 {
      p := k;
      assert Starts(log[k..k]) == 0;
      return;
    }
    p := SpreadSoFar(c, log, k, e - 1);
    if log[e - 1].Started? {
      var n := Starts(log[k..e]) - 1;
      FailedBetween(c, log, p, e - 1);
      BackoffNeverShrinks(Failures(log[..k]) + n, Failures(log[..p]) + 1, c.interval);
      p := e - 1;
    }
  }

  /**
    So consecutive failures spread out: from one attempt to a later one, none having succeeded in
    between, there pass all the waits the failures bring, one for each, doubling up to the interval.
   */
  lemma FailuresSpread(c: Config, run: seq<World>, i: nat, k: nat, l: nat)
    requires Run(c, run) && i < |run| && k < l < |run[i].log| && run[i].log[k].Started? && run[i].log[l].Started?
    requires c.interval > 0 && forall x :: k <= x < l ==> !run[i].log[x].DoneAt?
    ensures var log := run[i].log;
      log[l].at - log[k].at >= Waits(Failures(log[..k]), Starts(log[k..l]), Window(c), c.interval)
  {
    hide Run, TabsOk, PhaseOk, SlotOk, Failures, BackoffAfter, Justified, Starts;
    RunKeeps(c, run, i);
    var log := run[i].log;
    var p := SpreadSoFar(c, log, k, l);
    FailedBetween(c, log, p, l);
    BackoffNeverShrinks(Failures(log[..k]) + Starts(log[k..l]), Failures(log[..p]) + 1, c.interval);
  }

  // ---------- How many attempts there can be ----------

  /** When the attempts of a log were made. */
  ghost function Attempts(log: seq<Event>): seq<int> {
    if log == [] then []
    else Attempts(log[..|log| - 1]) + (if log[|log| - 1].Started? then [log[|log| - 1].at] else [])
  }

  lemma {:induction false} AttemptIs(log: seq<Event>, a: nat) returns (k: nat)
    requires a < |Attempts(log)|
    ensures k < |log| && log[k].Started? && log[k].at == Attempts(log)[a]
    ensures Attempts(log[..k + 1]) == Attempts(log)[..a + 1]
  {
    var n := |log| - 1;
    if log[n].Started? && a == |Attempts(log)| - 1 {
      k := n;
      assert log[..n + 1] == log;
    } else {
      k := AttemptIs(log[..n], a);
      assert log[..n][..k + 1] == log[..k + 1];
    }
  }

  /** So in any stretch of time there are only so many: the b-th attempt comes that many gaps after the a-th. */
  lemma {:induction false} AttemptsBounded(c: Config, run: seq<World>, i: nat, a: nat, b: nat)
    requires Run(c, run) && i < |run| && c.interval > 0 && a <= b < |Attempts(run[i].log)|
    ensures Attempts(run[i].log)[b] - Attempts(run[i].log)[a] >= (b - a) * Min(Window(c), HINTED_WINDOW)
    decreases b - a
  {
    hide Run, Attempts;
    var log := run[i].log;
    if a < b {
      AttemptsBounded(c, run, i, a, b - 1);
      var k := AttemptIs(log, b - 1);
      var l := AttemptIs(log, b);
      assert |Attempts(log[..k + 1])| == b && |Attempts(log[..l + 1])| == b + 1;
      AttemptOrder(log, k, l);
      AttemptsApart(c, run, i, k, l);
      var gap := Min(Window(c), HINTED_WINDOW);
      assert (b - a) * gap == (b - 1 - a) * gap + gap;
    }
  }

  lemma {:induction false} AttemptOrder(log: seq<Event>, k: nat, l: nat)
    requires k < |log| && l < |log| && |Attempts(log[..k + 1])| < |Attempts(log[..l + 1])|
    ensures k < l
  {
    if l <= k {
      AttemptsGrow(log, l + 1, k + 1);
    }
  }

  lemma {:induction false} AttemptsGrow(log: seq<Event>, i: nat, j: nat)
    requires i <= j <= |log|
    ensures |Attempts(log[..i])| <= |Attempts(log[..j])|
  {
    if i < j {
      AttemptsGrow(log, i, j - 1);
      assert log[..j][..j - 1] == log[..j - 1];
    }
  }
}
