/** When a session seals by itself: the quiet window, the beacon's hint and the backoff. */
module IdleSealer {
  import opened Bytes
  import opened Powers

  const SECOND := 1_000_000_000
  const WINDOW_CAP := 30 * SECOND
  const HINTED_WINDOW := 5 * SECOND
  const HINT_LEAD := 5 * SECOND

  function Min(a: int, b: int): int { if a <= b then a else b }

  function Max(a: int, b: int): int { if a >= b then a else b }

  /** The shorter of the cap and the snapshot interval; none at all without an interval. */
  function QuietWindow(interval: int): (w: int)
    ensures interval > 0 ==> 0 < w <= interval && w <= WINDOW_CAP
    ensures interval <= 0 ==> w == 0
  {
    if interval <= 0 then 0 else Min(WINDOW_CAP, interval)
  }

  /** Staged bytes, dirty inodes and dirty edges; any of them negative while the overlay is being sealed. */
  datatype Reading = Reading(staged: int, nodes: int, edges: int)

  predicate Unreadable(r: Reading) {
    r.staged < 0 || r.nodes < 0 || r.edges < 0
  }

  predicate Clean(r: Reading) {
    r.staged == 0 && r.nodes == 0 && r.edges == 0
  }

  /** The sealer's own memory between samples. */
  datatype Memory = Memory(last: Option<Reading>, lastChange: int, backoff: int, retryAfter: Option<int>)

  /** The first readable sample is a baseline; a later one that differs is a write. */
  function Noted(m: Memory, r: Reading, now: int): Memory {
    match m.last
    case None => m.(last := Some(r))
    case Some(before) => if r == before then m else m.(last := Some(r), lastChange := now)
  }

  /** A beacon that came with the last departure, or after it, shortens the wait. */
  function WindowFor(window: int, idleSince: int, hint: Option<int>): int {
    if hint.Some? && hint.value >= idleSince - HINT_LEAD then Min(window, HINTED_WINDOW) else window
  }

  function Quiet(m: Memory, window: int, idleSince: int, hint: Option<int>, now: int): bool {
    now - Max(idleSince, m.lastChange) >= WindowFor(window, idleSince, hint)
  }

  /** One sample, once the streams are known to be gone. */
  function Decide(m: Memory, window: int, idleSince: int, hint: Option<int>, r: Reading, now: int): (Memory, bool) {
    if Unreadable(r) then (m, false)
    else
      var noted := Noted(m, r, now);
      (noted, !Clean(r) && (noted.retryAfter.Some? ==> now >= noted.retryAfter.value)
              && Quiet(noted, window, idleSince, hint, now))
  }

  // ---------- When a sample is due, in seconds ----------

  /** What is owed: thirty seconds, or the interval if shorter; five seconds at most after a beacon. */
  ghost function Owed(interval: int, beaconed: bool): int {
    var window := if interval < 30_000_000_000 then interval else 30_000_000_000;
    if beaconed && window > 5_000_000_000 then 5_000_000_000 else window
  }

  /**
    When a sample asks for a seal: it can be read and shows something to publish, no backoff is running,
    and both the last departure and the last change, which may be this sample's, are long enough ago.
   */
  ghost predicate Asks(m: Memory, interval: int, idleSince: int, hint: Option<int>, r: Reading, now: int) {
    var change := if m.last.Some? && m.last.value != r then now else m.lastChange;
    var wait := Owed(interval, hint.Some? && hint.value >= idleSince - 5_000_000_000);
    && r.staged >= 0 && r.nodes >= 0 && r.edges >= 0 && !(r.staged == 0 && r.nodes == 0 && r.edges == 0)
    && (m.retryAfter.Some? ==> now >= m.retryAfter.value) && now - idleSince >= wait && now - change >= wait
  }

  /** The rule the sealer decides by, in seconds. */
  lemma DecideExactly(m: Memory, interval: int, idleSince: int, hint: Option<int>, r: Reading, now: int)
    requires interval > 0
    ensures Decide(m, QuietWindow(interval), idleSince, hint, r, now).1 <==> Asks(m, interval, idleSince, hint, r, now)
  {
  }

  lemma WindowThere(interval: int)
    ensures QuietWindow(interval) > 0 <==> interval > 0
  {
  }

  function NextBackoff(backoff: int, window: int, interval: int): int {
    Min(Max(2 * backoff, window), interval)
  }

  function AfterFailure(m: Memory, window: int, interval: int, now: int): Memory {
    var b := NextBackoff(m.backoff, window, interval);
    m.(backoff := b, retryAfter := Some(now + b))
  }

  function AfterSuccess(m: Memory, now: int): Memory {
    m.(backoff := 0, retryAfter := None, lastChange := now)
  }

  // ---------- The backoff in closed form ----------

  /** The wait after k failures in a row, as the sealer arrives at it. */
  function BackoffAfter(k: nat, window: int, interval: int): int {
    if k == 0 then 0 else NextBackoff(BackoffAfter(k - 1, window, interval), window, interval)
  }

  /** It doubles from the window up to the interval, and stays there. */
  lemma {:induction false} BackoffClosedForm(k: nat, interval: int)
    requires k > 0 && interval > 0
    ensures BackoffAfter(k, QuietWindow(interval), interval) == Min(Pow2(k - 1) * QuietWindow(interval), interval)
  {
    var w := QuietWindow(interval);
    if k > 1 {
      BackoffClosedForm(k - 1, interval);
      var p := Pow2(k - 2);
      assert Pow2(k - 1) * w == 2 * (p * w);
      assert p * w >= w;
    } else {
      assert BackoffAfter(0, w, interval) == 0;
    }
  }

  lemma BackoffAtLeastWindow(k: nat, interval: int)
    requires k > 0 && interval > 0
    ensures QuietWindow(interval) <= BackoffAfter(k, QuietWindow(interval), interval) <= interval
  {
  }

  lemma BackoffNeverShrinks(j: nat, k: nat, interval: int)
    requires j <= k && interval > 0
    ensures BackoffAfter(j, QuietWindow(interval), interval) <= BackoffAfter(k, QuietWindow(interval), interval)
  {
    if j < k {
      BackoffNeverShrinks(j, k - 1, interval);
      if k > 1 {
        BackoffAtLeastWindow(k - 1, interval);
      }
    }
  }

  /** The next n waits once f attempts in a row have failed. */
  function Waits(f: nat, n: nat, window: int, interval: int): int {
    if n == 0 then 0 else Waits(f, n - 1, window, interval) + BackoffAfter(f + n, window, interval)
  }

  /** While the wait is still doubling the first n come to 2^n - 1 windows; at the cap each is the interval. */
  lemma {:induction false} WaitsClosedForm(n: nat, interval: int)
    requires interval > 0 && n > 0 && Pow2(n - 1) * QuietWindow(interval) <= interval
    ensures Waits(0, n, QuietWindow(interval), interval) == (Pow2(n) - 1) * QuietWindow(interval)
  {
    var w := QuietWindow(interval);
    BackoffClosedForm(n, interval);
    var p := Pow2(n - 1);
    assert (Pow2(n) - 1) * w == (p - 1) * w + p * w;
    if n > 1 {
      assert Pow2(n - 2) * w <= p * w by {
        assert p * w == 2 * (Pow2(n - 2) * w);
      }
      WaitsClosedForm(n - 1, interval);
    } else {
      assert Waits(0, 0, w, interval) == 0;
    }
  }

  lemma {:induction false} WaitsCapped(f: nat, n: nat, interval: int)
    requires interval > 0 && Pow2(f) * QuietWindow(interval) >= interval
    ensures Waits(f, n, QuietWindow(interval), interval) == n * interval
  {
    hide BackoffAfter, Pow2;
    if n > 0 {
      WaitsCapped(f, n - 1, interval);
      BackoffClosedForm(f + 1, interval);
      BackoffNeverShrinks(f + 1, f + n, interval);
      BackoffAtLeastWindow(f + n, interval);
      assert n * interval == (n - 1) * interval + interval;
    }
  }

  // ---------- The sealer ----------

  class Sealer {
    const window: int
    const interval: int
    var sampled: bool
    var lastBytes: int
    var lastNodes: int
    var lastEdges: int
    var lastChange: int
    var backoff: int
    var retryAfter: Option<int>

    constructor (interval: int, now: int)
      ensures window == QuietWindow(interval) && this.interval == interval
      ensures Memo() == Memory(None, now, 0, None)
    {
      this.window := QuietWindow(interval);
      this.interval := interval;
      sampled := false;
      lastBytes, lastNodes, lastEdges := 0, 0, 0;
      lastChange := now;
      backoff := 0;
      retryAfter := None;
    }

    ghost function Memo(): Memory
      reads this
    {
      Memory(if sampled then Some(Reading(lastBytes, lastNodes, lastEdges)) else None, lastChange, backoff, retryAfter)
    }

    /** The whole trigger, on what the browser and the overlay say. */
    method Due(attached: nat, idleSince: Option<int>, hint: Option<int>, pressure: Reading, now: int) returns (due: bool)
      modifies this
      ensures window <= 0 || attached > 0 || idleSince.None? ==> !due && Memo() == old(Memo())
      ensures window > 0 && attached == 0 && idleSince.Some? ==>
        (Memo(), due) == Decide(old(Memo()), window, idleSince.value, hint, pressure, now)
      ensures window == QuietWindow(interval) ==>
        (due <==> interval > 0 && attached == 0 && idleSince.Some?
                  && Asks(old(Memo()), interval, idleSince.value, hint, pressure, now))
    {
      hide Asks, QuietWindow;
      if interval > 0 && idleSince.Some? {
        DecideExactly(Memo(), interval, idleSince.value, hint, pressure, now);
      }
      WindowThere(interval);
      if window <= 0 {
        return false;
      }
      if attached > 0 || idleSince.None? {
        return false;
      }
      if pressure.staged < 0 || pressure.nodes < 0 || pressure.edges < 0 {
        return false;
      }
      if !sampled {
        sampled, lastBytes, lastNodes, lastEdges := true, pressure.staged, pressure.nodes, pressure.edges;
      } else if pressure.staged != lastBytes || pressure.nodes != lastNodes || pressure.edges != lastEdges {
        lastBytes, lastNodes, lastEdges, lastChange := pressure.staged, pressure.nodes, pressure.edges, now;
      }
      if pressure.staged == 0 && pressure.nodes == 0 && pressure.edges == 0 {
        return false;
      }
      if retryAfter.Some? && now < retryAfter.value {
        return false;
      }
      var wait := window;
      if hint.Some? && hint.value >= idleSince.value - HINT_LEAD {
        wait := Min(wait, HINTED_WINDOW);
      }
      var quietFrom := idleSince.value;
      if lastChange > quietFrom {
        quietFrom := lastChange;
      }
      due := now - quietFrom >= wait;
    }

    /** What a seal that has ended leaves behind. */
    method Settle(ok: bool, now: int)
      modifies this
      ensures Memo() == if ok then AfterSuccess(old(Memo()), now) else AfterFailure(old(Memo()), window, interval, now)
    {
      if ok {
        backoff, retryAfter := 0, None;
        lastChange := now;
      } else {
        backoff := Min(Max(2 * backoff, window), interval);
        retryAfter := Some(now + backoff);
      }
    }
  }
}
