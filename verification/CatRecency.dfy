/**
  What the order of the open catalogs means over whole runs: the front was handed out last, and the
  idle handles that go are those handed out longest ago.
 */
module CatRecency {
  import opened Bytes
  import opened CatLru
  import opened CatCacheRuns

  /** With this step some caller comes to hold the handle. */
  ghost predicate Taken(s: State, t: State, n: nat) {
    exists a: nat :: Refers(At(t, a), n) && !Refers(At(s, a), n)
  }

  ghost predicate TakenAt(run: seq<State>, j: nat, n: nat) {
    0 < j < |run| && Taken(run[j - 1], run[j], n)
  }

  /** Up to step i handle m was taken at some step since which n has not been. */
  ghost predicate Later(run: seq<State>, i: nat, m: nat, n: nat) {
    exists j: nat :: LaterSince(run, i, j, m, n)
  }

  ghost predicate LaterSince(run: seq<State>, i: nat, j: nat, m: nat, n: nat) {
    j <= i && TakenAt(run, j, m) && forall k: nat :: j <= k <= i ==> !TakenAt(run, k, n)
  }

  ghost predicate RecentFirst(run: seq<State>, i: nat)
    requires i < |run|
  {
    forall p: nat, q: nat :: p < q < |run[i].lru| ==> Later(run, i, run[i].lru[p].serial, run[i].lru[q].serial)
  }

  // ---------- One step ----------

  /** From a position on, what comes before what in the new list did so in the old. */
  ghost predicate KeepsOrder(before: seq<Handle>, after: seq<Handle>, from: nat) {
    forall p: nat, q: nat :: from <= p < q < |after| ==> Before(before, after[p].serial, after[q].serial)
  }

  ghost predicate Before(lru: seq<Handle>, m: nat, n: nat) {
    exists p: nat, q: nat :: p < q < |lru| && lru[p].serial == m && lru[q].serial == n
  }

  /** A step takes no handle and keeps the order, or takes one, which comes to the front. */
  ghost predicate StepOrder(s: State, t: State) {
    || ((forall n :: !Taken(s, t, n)) && KeepsOrder(s.lru, t.lru, 0))
    || (t.lru != [] && (forall n :: Taken(s, t, n) <==> n == t.lru[0].serial) && KeepsOrder(s.lru, t.lru, 1))
  }

  lemma OrderItself(lru: seq<Handle>)
    ensures KeepsOrder(lru, lru, 0)
  {
  }

  lemma FewerOrder(lru: seq<Handle>, i: nat)
    requires i < |lru|
    ensures KeepsOrder(lru, Fewer(lru, i), 0)
  {
    assert forall k :: 0 <= k < |lru| ==> Fewer(lru, i)[k].serial == lru[k].serial;
  }

  lemma TouchedOrder(lru: seq<Handle>, i: nat)
    requires i < |lru|
    ensures Touched(lru, i) != [] && Touched(lru, i)[0].serial == lru[i].serial && KeepsOrder(lru, Touched(lru, i), 1)
  {
    var t := Touched(lru, i);
    forall p: nat, q: nat | 1 <= p < q < |t|
      ensures Before(lru, t[p].serial, t[q].serial)
    {
      var p', q' := if p - 1 < i then p - 1 else p, if q - 1 < i then q - 1 else q;
      assert t[p] == lru[p'] && t[q] == lru[q'];
    }
  }

  lemma FrontOrder(lru: seq<Handle>, h: Handle)
    ensures KeepsOrder(lru, [h] + lru, 1)
  {
    var t := [h] + lru;
    forall p: nat, q: nat | 1 <= p < q < |t|
      ensures Before(lru, t[p].serial, t[q].serial)
    {
      assert t[p] == lru[p - 1] && t[q] == lru[q - 1];
    }
  }

  /** Eviction keeps the order, and a front handle in use. */
  lemma EvictedOrder(before: seq<Handle>, lru: seq<Handle>, cap: int, from: nat)
    requires KeepsOrder(before, lru, from) && (from == 0 || (from == 1 && lru != [] && lru[0].refs != 0))
    ensures KeepsOrder(before, Evicted(lru, cap), from)
    ensures from == 1 ==> Evicted(lru, cap) != [] && Evicted(lru, cap)[0] == lru[0]
  {
    hide Evicted, Before;
    var at := EvictedExactly(lru, cap);
    if from == 1 {
      assert !Goes(lru, cap, 0);
      assert forall b :: 0 < b < |at| ==> at[0] < at[b];
      var a :| 0 <= a < |at| && at[a] == 0;
    }
    var out := Evicted(lru, cap);
    forall p: nat, q: nat | from <= p < q < |out|
      ensures Before(before, out[p].serial, out[q].serial)
    {
      assert at[p] < at[q] && from <= at[p];
    }
  }

  /** What a move of one caller takes. */
  lemma MoveTakes(s: State, t: State, a: nat, p: Phase, n: nat)
    requires t.phases == s.phases[a := p]
    ensures Taken(s, t, n) <==> Refers(p, n) && !Refers(At(s, a), n)
  {
    assert forall b :: b != a ==> At(t, b) == At(s, b);
    assert At(t, a) == p;
  }

  lemma MovesTake(s: State, t: State, a: nat, p: Phase)
    requires t.phases == s.phases[a := p]
    ensures forall n :: Taken(s, t, n) <==> Refers(p, n) && !Refers(At(s, a), n)
  {
    forall n
      ensures Taken(s, t, n) <==> Refers(p, n) && !Refers(At(s, a), n)
    {
      MoveTakes(s, t, a, p, n);
    }
  }

  lemma StepsOrder(s: State, t: State, cap: int, root: Bytes)
    requires Step(s, t, cap, root)
    ensures StepOrder(s, t)
  {
    hide KeepsOrder, Taken, Touched, Fewer, Evicted, Look, TakeGate, Recheck, Open, Insert, DropGate, Release;
    var a: nat :| CallerStep(s, t, a, cap, root);
    OrderItself(s.lru);
    if id :| Look(s, t, a, id, root) {
      LookOrder(s, t, a, id, root);
    } else if ok :| Open(s, t, a, ok) {
      OpenOrder(s, t, a, ok);
    } else if Recheck(s, t, a) {
      RecheckOrder(s, t, a);
    } else if Insert(s, t, a, cap) {
      InsertOrder(s, t, a, cap);
    } else if Release(s, t, a, cap) {
      ReleaseOrder(s, t, a, cap);
    } else {
      GateOrder(s, t, a);
    }
  }

  lemma LookOrder(s: State, t: State, a: nat, id: Bytes, root: Bytes)
    requires Look(s, t, a, id, root) && KeepsOrder(s.lru, s.lru, 0)
    ensures StepOrder(s, t)
  {
    hide KeepsOrder, Taken, Touched;
    MovesTake(s, t, a, At(t, a));
    if id != root && Find(s.lru, id).Some? {
      TouchedOrder(s.lru, Find(s.lru, id).value);
    }
  }

  lemma RecheckOrder(s: State, t: State, a: nat)
    requires Recheck(s, t, a) && KeepsOrder(s.lru, s.lru, 0)
    ensures StepOrder(s, t)
  {
    hide KeepsOrder, Taken, Touched;
    MovesTake(s, t, a, At(t, a));
    if Find(s.lru, At(s, a).id).Some? {
      TouchedOrder(s.lru, Find(s.lru, At(s, a).id).value);
    }
  }

  lemma OpenOrder(s: State, t: State, a: nat, ok: bool)
    requires Open(s, t, a, ok) && KeepsOrder(s.lru, s.lru, 0)
    ensures StepOrder(s, t)
  {
    hide KeepsOrder, Taken;
    MovesTake(s, t, a, At(t, a));
  }

  lemma GateOrder(s: State, t: State, a: nat)
    requires (TakeGate(s, t, a) || DropGate(s, t, a)) && KeepsOrder(s.lru, s.lru, 0)
    ensures StepOrder(s, t)
  {
    hide KeepsOrder, Taken;
    MovesTake(s, t, a, At(t, a));
  }

  lemma InsertOrder(s: State, t: State, a: nat, cap: int)
    requires Insert(s, t, a, cap)
    ensures StepOrder(s, t)
  {
    hide KeepsOrder, Taken, Evicted;
    var h := Handle(At(s, a).id, At(s, a).serial, 1);
    MovesTake(s, t, a, At(t, a));
    FrontOrder(s.lru, h);
    EvictedOrder(s.lru, [h] + s.lru, cap, 1);
  }

  lemma ReleaseOrder(s: State, t: State, a: nat, cap: int)
    requires Release(s, t, a, cap) && KeepsOrder(s.lru, s.lru, 0)
    ensures StepOrder(s, t)
  {
    hide KeepsOrder, Taken, Evicted, Fewer;
    MovesTake(s, t, a, At(t, a));
    if At(s, a).Using? {
      var i := Spot(s.lru, At(s, a).serial).value;
      FewerOrder(s.lru, i);
      EvictedOrder(s.lru, Fewer(s.lru, i), cap, 0);
    }
  }

  // ---------- Every run ----------

  lemma LaterStays(run: seq<State>, i: nat, m: nat, n: nat)
    requires 0 < i < |run| && Later(run, i - 1, m, n) && !Taken(run[i - 1], run[i], n)
    ensures Later(run, i, m, n)
  {
    hide Taken;
    var j: nat :| LaterSince(run, i - 1, j, m, n);
    assert LaterSince(run, i, j, m, n);
  }

  lemma BeforeLater(run: seq<State>, i: nat, m: nat, n: nat)
    requires i < |run| && RecentFirst(run, i) && Before(run[i].lru, m, n)
    ensures Later(run, i, m, n)
  {
    hide Later;
  }

  lemma StepRecent(run: seq<State>, i: nat)
    requires 0 < i < |run| && RecentFirst(run, i - 1) && StepOrder(run[i - 1], run[i]) && Distinct(run[i].lru)
    ensures RecentFirst(run, i)
  {
    hide Later, Taken, Before;
    var s, t := run[i - 1], run[i];
    forall p: nat, q: nat | p < q < |t.lru|
      ensures Later(run, i, t.lru[p].serial, t.lru[q].serial)
    {
      if p == 0 && Taken(s, t, t.lru[0].serial) {
        JustTaken(run, i, t.lru[0].serial, t.lru[q].serial);
      } else {
        BeforeLater(run, i - 1, t.lru[p].serial, t.lru[q].serial);
        LaterStays(run, i, t.lru[p].serial, t.lru[q].serial);
      }
    }
  }

  lemma JustTaken(run: seq<State>, i: nat, m: nat, n: nat)
    requires 0 < i < |run| && Taken(run[i - 1], run[i], m) && !Taken(run[i - 1], run[i], n)
    ensures Later(run, i, m, n)
  {
    hide Taken;
    assert LaterSince(run, i, i, m, n);
  }

  /** Most recently used first: of two open catalogs the one nearer the front was handed out later. */
  lemma {:induction false} MostRecentFirst(run: seq<State>, cap: int, root: Bytes, i: nat)
    requires Run(run, cap, root) && i < |run|
    ensures RecentFirst(run, i)
  {
    hide Step, RecentFirst, StepOrder, Inv, Distinct;
    if i == 0 {
      assert RecentFirst(run, 0) by { NothingYet(run); }
    } else {
      MostRecentFirst(run, cap, root, i - 1);
      RunKeeps(run, cap, root, i);
      DistinctThere(run[i], cap);
      StepsOrder(run[i - 1], run[i], cap, root);
      StepRecent(run, i);
    }
  }

  lemma NothingYet(run: seq<State>)
    requires run != [] && run[0].lru == []
    ensures RecentFirst(run, 0)
  {
  }

  lemma DistinctThere(s: State, cap: int)
    requires Inv(s, cap)
    ensures Distinct(s.lru)
  {
  }

  // ---------- Who is closed ----------

  /** If a position stays though idle, nothing behind it goes ahead of it. */
  lemma IdleStaysAhead(lru: seq<Handle>, cap: int, i: nat, j: nat)
    requires i < |lru| && j < |lru| && !Goes(lru, cap, i) && lru[i].refs == 0 && Goes(lru, cap, j)
    ensures i < j
  {
    if j < i {
      assert IdleBehind(lru, i) <= IdleBehind(lru, j);
      FewerBehind(IdleBehind(lru, i), IdleBehind(lru, j));
    }
  }

  lemma {:induction false} FewerBehind(a: set<nat>, b: set<nat>)
    requires a <= b
    ensures |a| <= |b|
  {
    if a != {} {
      var x :| x in a;
      FewerBehind(a - {x}, b - {x});
    }
  }

  /** Of a list evicted from, what stays idle came before what went. */
  lemma StaysBeforeGone(lru: seq<Handle>, cap: int, h: Handle, n: nat)
    requires Distinct(lru) && h in Evicted(lru, cap) && h.refs == 0
    requires n in Serials(lru) && n !in Serials(Evicted(lru, cap))
    ensures Before(lru, h.serial, n)
  {
    hide Evicted, Goes;
    var at := EvictedExactly(lru, cap);
    var out := Evicted(lru, cap);
    var a :| 0 <= a < |out| && out[a] == h;
    var j: nat :| j < |lru| && lru[j].serial == n;
    assert at[a] in at;
    forall b | 0 <= b < |at|
      ensures at[b] != j
    {
      assert out[b].serial in Serials(out);
    }
    IdleStaysAhead(lru, cap, at[a], j);
  }

  /** A catalog is closed to keep the cap only if every idle one that stays open was handed out later. */
  lemma ClosesLeastRecent(run: seq<State>, cap: int, root: Bytes, i: nat, n: nat, h: Handle)
    requires Run(run, cap, root) && 0 < i < |run| && n in run[i].closed && n !in run[i - 1].closed
    requires h in run[i].lru && h.refs == 0
    ensures Later(run, i, h.serial, n)
  {
    hide Inv, RecentFirst, Later, Before, Evicted, Distinct, Look, TakeGate, Recheck, Open, DropGate, Taken;
    var s, t := run[i - 1], run[i];
    MostRecentFirst(run, cap, root, i - 1);
    RunKeeps(run, cap, root, i - 1);
    DistinctThere(s, cap);
    var a: nat :| CallerStep(s, t, a, cap, root);
    OnlyTwoClose(s, t, a, cap, root, n);
    ClosedBefore(s, t, a, cap, n, h);
    BeforeLater(run, i - 1, h.serial, n);
    NotTakenClosed(run, cap, root, i, n);
    LaterStays(run, i, h.serial, n);
  }

  lemma OnlyTwoClose(s: State, t: State, a: nat, cap: int, root: Bytes, n: nat)
    requires CallerStep(s, t, a, cap, root) && n in t.closed && n !in s.closed
    ensures Insert(s, t, a, cap) || Release(s, t, a, cap)
  {
    hide Insert, Release, Evicted, Touched;
  }

  lemma ClosedBefore(s: State, t: State, a: nat, cap: int, n: nat, h: Handle)
    requires (Insert(s, t, a, cap) || Release(s, t, a, cap)) && n in t.closed && n !in s.closed && h in t.lru && h.refs == 0
    requires Inv(s, cap) && Distinct(s.lru)
    ensures Before(s.lru, h.serial, n)
  {
    hide Evicted, Inv, Before, Distinct, Fewer;
    if Insert(s, t, a, cap) {
      var first := Handle(At(s, a).id, At(s, a).serial, 1);
      LongerDistinct(s, a, cap);
      StaysBeforeGone([first] + s.lru, cap, h, n);
      EvictedKeeps([first] + s.lru, cap);
      BehindFront(s.lru, first, h, n);
    } else {
      var i := Spot(s.lru, At(s, a).serial).value;
      FewerDistinct(s.lru, i);
      StaysBeforeGone(Fewer(s.lru, i), cap, h, n);
      SameBefore(s.lru, i, h.serial, n);
    }
  }

  lemma BehindFront(lru: seq<Handle>, first: Handle, h: Handle, n: nat)
    requires Distinct([first] + lru) && h in [first] + lru && h != first && Before([first] + lru, h.serial, n)
    ensures Before(lru, h.serial, n)
  {
    var longer := [first] + lru;
    var p: nat, q: nat :| p < q < |longer| && longer[p].serial == h.serial && longer[q].serial == n;
    var k :| 0 <= k < |longer| && longer[k] == h;
    assert k == p && p > 0;
    assert lru[p - 1].serial == h.serial && lru[q - 1].serial == n;
  }

  lemma FewerDistinct(lru: seq<Handle>, i: nat)
    requires i < |lru| && Distinct(lru)
    ensures Distinct(Fewer(lru, i))
  {
  }

  lemma SameBefore(lru: seq<Handle>, i: nat, m: nat, n: nat)
    requires i < |lru| && Before(Fewer(lru, i), m, n)
    ensures Before(lru, m, n)
  {
    assert forall k :: 0 <= k < |lru| ==> Fewer(lru, i)[k].serial == lru[k].serial;
  }

  lemma LongerDistinct(s: State, a: nat, cap: int)
    requires Inv(s, cap) && At(s, a).Opened?
    ensures Distinct([Handle(At(s, a).id, At(s, a).serial, 1)] + s.lru)
  {
    assert IsOpened(s, a, At(s, a).serial);
    assert Absent(s.lru, At(s, a).id);
  }

  lemma NotTakenClosed(run: seq<State>, cap: int, root: Bytes, i: nat, n: nat)
    requires Run(run, cap, root) && 0 < i < |run| && n in run[i].closed
    ensures !Taken(run[i - 1], run[i], n)
  {
    hide Run;
    if a: nat :| Refers(At(run[i], a), n) && !Refers(At(run[i - 1], a), n) {
      NeverClosedInUse(run, cap, root, i, a);
    }
  }
}
