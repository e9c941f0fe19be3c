/** The browse server: the stream set and the publish slot, updated in place under one lock. */
module BrowseServer {
  import opened Bytes
  import opened PublishSlot

  class PublishJob {
    const reason: Reason
    const started: int
    var state: JobState
    var ended: int

    constructor (reason: Reason, now: int)
      ensures this.reason == reason && started == now && state == Running
    {
      this.reason := reason;
      this.started := now;
      state := Running;
      ended := now;
    }
  }

  ghost function JobsOf(all: seq<PublishJob>): (js: seq<Job>)
    reads all
    ensures |js| == |all| && forall i :: 0 <= i < |all| ==> js[i] == Job(all[i].reason, all[i].state, all[i].started)
  {
    if all == [] then [] else JobsOf(all[..|all| - 1]) + [Job(all[|all| - 1].reason, all[|all| - 1].state, all[|all| - 1].started)]
  }

  /** Which of all the jobs has the slot. */
  ghost function IndexIn(all: seq<PublishJob>, job: PublishJob?): (i: Option<nat>)
    ensures i.Some? ==> i.value < |all| && all[i.value] == job
    ensures i.None? ==> forall k :: 0 <= k < |all| ==> all[k] != job
  {
    if all == [] then None
    else if all[|all| - 1] == job then Some(|all| - 1)
    else IndexIn(all[..|all| - 1], job)
  }

  lemma OneMoreJob(all: seq<PublishJob>, j: PublishJob)
    ensures JobsOf(all + [j]) == JobsOf(all) + [Job(j.reason, j.state, j.started)]
    ensures IndexIn(all + [j], j) == Some(|all|)
  {
    assert (all + [j])[..|all|] == all;
  }

  class Browse {
    var streams: set<nat>
    var streamsIdleSince: Option<int>
    var beaconAt: Option<int>
    var closed: bool
    var session: Session
    var job: PublishJob?
    var lastPublish: int
    /** Every job there ever was. */
    ghost var all: seq<PublishJob>

    constructor (now: int)
      ensures Valid() && Now() == Fresh(now) && lastPublish == now && all == []
    {
      streams := {};
      streamsIdleSince := Some(now);
      beaconAt := None;
      closed := false;
      session := NotOpen;
      job := null;
      lastPublish := now;
      all := [];
    }

    ghost predicate Valid()
      reads this, all
    {
      && (forall i, j :: 0 <= i < j < |all| ==> all[i] != all[j])
      && (job != null ==> job in all)
      && forall i :: 0 <= i < |all| && all[i].state.Running? ==> all[i] == job
    }

    ghost function Now(): (s: Server)
      requires Valid()
      reads this, all
      ensures SlotOk(s)
    {
      Server(streams, streamsIdleSince, beaconAt, closed, session, JobsOf(all), IndexIn(all, job))
    }

    /** A tab attaches; once the session is closing it is only told goodbye. */
    method Subscribe(stream: nat)
      requires Valid()
      modifies `streams, `streamsIdleSince
      ensures Valid() && Now() == Subscribed(old(Now()), stream)
    {
      if closed {
        return;
      }
      streams := streams + {stream};
      streamsIdleSince := None;
    }

    method Unsubscribe(stream: nat, now: int)
      requires Valid()
      modifies `streams, `streamsIdleSince
      ensures Valid() && Now() == Unsubscribed(old(Now()), stream, now)
    {
      streams := streams - {stream};
      if streams == {} {
        streamsIdleSince := Some(now);
      }
    }

    method Beacon(now: int)
      requires Valid()
      modifies `beaconAt
      ensures Valid() && Now() == old(Now()).(hint := Some(now))
    {
      beaconAt := Some(now);
    }

    method IdleSignal() returns (attached: nat, idleSince: Option<int>, hint: Option<int>)
      requires Valid()
      ensures (attached == 0 <==> Now().streams == {}) && idleSince == Now().idleSince && hint == Now().hint
    {
      attached, idleSince, hint := |streams|, streamsIdleSince, beaconAt;
    }

    predicate Held()
      reads this, job
    {
      job != null && job.state.Running?
    }

    /** Puts a new job in the slot, whoever it is for. */
    method Claim(reason: Reason, now: int) returns (j: PublishJob)
      requires Valid() && !Held()
      modifies `job, `all
      ensures Valid() && fresh(j) && j == job && all == old(all) + [j] && j.state.Running?
      ensures Now() == Claimed(old(Now()), reason, now)
    {
      hide JobsOf, IndexIn;
      j := new PublishJob(reason, now);
      OneMoreJob(all, j);
      job := j;
      all := all + [j];
    }

    method ServePublish(now: int) returns (a: Answer)
      requires Valid()
      modifies `job, `all
      ensures Valid() && (Now(), a) == Publish(old(Now()), now)
    {
      if session.NotOpen? {
        return Opening;
      }
      if session.ReadOnly? {
        return Forbidden;
      }
      if Held() {
        return Conflict;
      }
      var j := Claim(User, now);
      return Accepted;
    }

    method ServeSwitch(staged: bool, overlayBusy: bool, now: int) returns (a: Answer)
      requires Valid()
      modifies `job, `all
      ensures Valid() && (Now(), a) == SwitchBranch(old(Now()), staged, overlayBusy, now)
    {
      if session.NotOpen? {
        return Opening;
      }
      if Held() {
        return Conflict;
      }
      if overlayBusy {
        return Conflict;
      }
      if staged {
        return Conflict;
      }
      var j := Claim(Branch, now);
      return Accepted;
    }

    method ClaimIdleJob(now: int) returns (j: PublishJob?)
      requires Valid()
      modifies `job, `all
      ensures Valid() && (Now(), j != null) == ClaimIdle(old(Now()), now)
      ensures j != null ==> j == job && j in all
    {
      if closed || !session.Writable? {
        return null;
      }
      if Held() {
        return null;
      }
      j := Claim(Idle, now);
    }

    /** Records how a publish ended; the slot is free again if it was the one holding it. */
    method FinishJob(j: PublishJob, ghost i: nat, ok: bool, now: int)
      requires Valid() && i < |all| && all[i] == j
      modifies j, `lastPublish
      ensures Valid() && Now() == Finished(old(Now()), i, ok)
      ensures lastPublish == (if ok then now else old(lastPublish)) && j.ended == now
    {
      hide JobsOf, IndexIn;
      ghost var before := JobsOf(all);
      j.ended := now;
      if ok {
        j.state := Done;
        lastPublish := now;
      } else {
        j.state := Failed;
      }
      assert JobsOf(all) == before[i := before[i].(state := j.state)];
    }

    method CloseStreams()
      requires Valid()
      modifies `closed
      ensures Valid() && Now() == old(Now()).(closed := true)
    {
      if closed {
        return;
      }
      closed := true;
    }
  }
}
