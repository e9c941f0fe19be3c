/**
  The browser's side of a session as values: the attached streams, the instant the last of them
  left, and the one publish slot that the button, the idle seal and a branch switch share.
 */
module PublishSlot {
  import opened Bytes

  datatype JobState = Running | Done | Failed

  datatype Reason = User | Idle | Branch

  datatype Job = Job(reason: Reason, state: JobState, started: int)

  /** The volume behind the session: still opening, read-only, or writable. */
  datatype Session = NotOpen | ReadOnly | Writable

  /** jobs are all there ever were; current is the one that has the slot, or had it last. */
  datatype Server = Server(streams: set<nat>, idleSince: Option<int>, hint: Option<int>, closed: bool, session: Session,
                           jobs: seq<Job>, current: Option<nat>)

  datatype Answer = Accepted | Opening | Forbidden | Conflict

  function Fresh(start: int): Server {
    Server({}, Some(start), None, false, NotOpen, [], None)
  }

  predicate Busy(s: Server) {
    s.current.Some? && s.current.value < |s.jobs| && s.jobs[s.current.value].state.Running?
  }

  /** Only the job in the slot can be running. */
  ghost predicate SlotOk(s: Server) {
    && (s.current.Some? ==> s.current.value < |s.jobs|)
    && forall i :: 0 <= i < |s.jobs| && s.jobs[i].state.Running? ==> s.current == Some(i)
  }

  function Subscribed(s: Server, stream: nat): Server {
    if s.closed then s else s.(streams := s.streams + {stream}, idleSince := None)
  }

  /** Only the departure that leaves nobody starts the quiet time. */
  function Unsubscribed(s: Server, stream: nat, now: int): Server {
    var left := s.streams - {stream};
    s.(streams := left, idleSince := if left == {} then Some(now) else s.idleSince)
  }

  /** Puts a job in the slot. */
  function Claimed(s: Server, reason: Reason, now: int): Server {
    s.(jobs := s.jobs + [Job(reason, Running, now)], current := Some(|s.jobs|))
  }

  /** The button: not checked against the session's end, which joins it instead. */
  function Publish(s: Server, now: int): (Server, Answer) {
    if s.session.NotOpen? then (s, Opening)
    else if s.session.ReadOnly? then (s, Forbidden)
    else if Busy(s) then (s, Conflict)
    else (Claimed(s, User, now), Accepted)
  }

  /** A branch switch: refused while anything is staged that it would strand. */
  function SwitchBranch(s: Server, staged: bool, overlayBusy: bool, now: int): (Server, Answer) {
    if s.session.NotOpen? then (s, Opening)
    else if Busy(s) || overlayBusy || staged then (s, Conflict)
    else (Claimed(s, Branch, now), Accepted)
  }

  /** The automatic seal: never once the session is closing. */
  function ClaimIdle(s: Server, now: int): (Server, bool) {
    if s.closed || !s.session.Writable? || Busy(s) then (s, false) else (Claimed(s, Idle, now), true)
  }

  function Finished(s: Server, j: nat, ok: bool): Server
    requires j < |s.jobs|
  {
    s.(jobs := s.jobs[j := s.jobs[j].(state := if ok then Done else Failed)])
  }

  // ---------- One job at a time ----------

  lemma ClaimKeepsSlot(s: Server, reason: Reason, now: int)
    requires SlotOk(s) && !Busy(s)
    ensures SlotOk(Claimed(s, reason, now)) && Busy(Claimed(s, reason, now))
  {
    assert forall i :: 0 <= i < |s.jobs| ==> !s.jobs[i].state.Running?;
  }

  lemma FinishKeepsSlot(s: Server, j: nat, ok: bool)
    requires SlotOk(s) && j < |s.jobs|
    ensures SlotOk(Finished(s, j, ok))
  {
  }

  /** Whoever asks, the slot is handed out only when nothing runs. */
  lemma SlotExclusive(s: Server, staged: bool, overlayBusy: bool, now: int)
    requires SlotOk(s)
    ensures SlotOk(Publish(s, now).0) && SlotOk(SwitchBranch(s, staged, overlayBusy, now).0)
    ensures SlotOk(ClaimIdle(s, now).0)
    ensures Busy(s) ==> !Publish(s, now).1.Accepted? && !SwitchBranch(s, staged, overlayBusy, now).1.Accepted?
    ensures Busy(s) ==> !ClaimIdle(s, now).1
  {
    if !Busy(s) {
      ClaimKeepsSlot(s, User, now);
      ClaimKeepsSlot(s, Branch, now);
      ClaimKeepsSlot(s, Idle, now);
    }
  }

  ghost predicate AnyRunning(s: Server) {
    exists i :: 0 <= i < |s.jobs| && s.jobs[i].state.Running?
  }

  /** v is s with one more job, which runs and has the slot. */
  ghost predicate Starts(s: Server, v: Server, reason: Reason, now: int) {
    && v.jobs == s.jobs + [Job(reason, Running, now)] && v.current == Some(|s.jobs|)
    && v.streams == s.streams && v.idleSince == s.idleSince && v.hint == s.hint && v.closed == s.closed && v.session == s.session
  }

  /**
    When each of the three gets the slot, what it is told otherwise, and that being refused changes
    nothing: the button on a writable volume, a switch on one that is open while nothing is staged and
    the overlay is not busy, the idle seal on a writable one until the session closes; none while a job
    runs.
   */
  lemma GrantedExactly(s: Server, staged: bool, overlayBusy: bool, now: int)
    requires SlotOk(s)
    ensures var (v, answer) := Publish(s, now);
      && (answer == Accepted <==> s.session == Writable && !AnyRunning(s)) && (answer == Opening <==> s.session == NotOpen)
      && (answer == Forbidden <==> s.session == ReadOnly)
      && (if answer == Accepted then Starts(s, v, User, now) else v == s)
    ensures var (v, answer) := SwitchBranch(s, staged, overlayBusy, now);
      && (answer == Accepted <==> s.session != NotOpen && !AnyRunning(s) && !staged && !overlayBusy)
      && (answer == Opening <==> s.session == NotOpen) && answer != Forbidden
      && (if answer == Accepted then Starts(s, v, Branch, now) else v == s)
    ensures var (v, granted) := ClaimIdle(s, now);
      && (granted <==> s.session == Writable && !AnyRunning(s) && !s.closed)
      && (if granted then Starts(s, v, Idle, now) else v == s)
  {
    BusyExactly(s);
  }

  lemma BusyExactly(s: Server)
    requires SlotOk(s)
    ensures Busy(s) <==> AnyRunning(s)
  {
    if i :| 0 <= i < |s.jobs| && s.jobs[i].state.Running? {
      assert s.current == Some(i);
    }
  }

  /** The job that ends is done or has failed, as it said; the slot is free if it was the one running. */
  lemma EndsExactly(s: Server, j: nat, ok: bool)
    requires SlotOk(s) && j < |s.jobs| && s.jobs[j].state.Running?
    ensures var v := Finished(s, j, ok);
      && |v.jobs| == |s.jobs| && v.jobs[j].state == (if ok then Done else Failed) && v.jobs[j].reason == s.jobs[j].reason
      && (forall i :: 0 <= i < |s.jobs| && i != j ==> v.jobs[i] == s.jobs[i]) && !AnyRunning(v)
  {
    assert forall i :: 0 <= i < |s.jobs| && i != j ==> !s.jobs[i].state.Running?;
  }

  /** So of all the jobs there ever were, no two run at once. */
  lemma OneRunning(s: Server, i: nat, j: nat)
    requires SlotOk(s) && i < |s.jobs| && j < |s.jobs|
    requires s.jobs[i].state.Running? && s.jobs[j].state.Running?
    ensures i == j
  {
    assert s.current == Some(i) && s.current == Some(j);
  }
}
