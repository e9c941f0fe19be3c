/**
  Every interleaving of acquire and release: each critical section of the cache is one atomic step,
  and opening a catalog happens between two of them, behind a gate per identity.
 */
module CatCacheRuns {
  import opened Bytes
  import opened CatLru

  /** Where one call stands; a caller that holds several catalogs is several callers. */
  datatype Phase = Outside | Missed(id: Bytes) | Gated(id: Bytes) | Opening(id: Bytes) | Opened(id: Bytes, serial: nat)
                 | Leaving(id: Bytes, serial: nat) | Using(id: Bytes, serial: nat) | UsingRoot

  datatype State = State(lru: seq<Handle>, phases: map<nat, Phase>, closed: set<nat>, next: nat)

  /** Holding the per-identity gate: from lockFill until acquire returns. */
  predicate HasGate(p: Phase, id: Bytes) {
    (p.Gated? || p.Opening? || p.Opened? || p.Leaving?) && p.id == id
  }

  /** Counted in the handle's references. */
  predicate Refers(p: Phase, serial: nat) {
    (p.Leaving? || p.Using?) && p.serial == serial
  }

  ghost function Callers(s: State, serial: nat): set<nat> {
    set a | a in s.phases && Refers(s.phases[a], serial)
  }

  function At(s: State, a: nat): Phase {
    if a in s.phases then s.phases[a] else Outside
  }

  function Moved(s: State, a: nat, p: Phase): State {
    s.(phases := s.phases[a := p])
  }

  // ---------- Steps ----------

  ghost predicate Init(s: State) {
    s.lru == [] && s.phases == map[] && s.closed == {} && s.next == 0
  }

  /** The first look: the pinned root, a hit, or a miss. */
  ghost predicate Look(s: State, t: State, a: nat, id: Bytes, root: Bytes) {
    && At(s, a) == Outside
    && t == if id == root then Moved(s, a, UsingRoot)
            else match Find(s.lru, id)
              case Some(i) => Moved(s.(lru := Touched(s.lru, i)), a, Using(id, s.lru[i].serial))
              case None => Moved(s, a, Missed(id))
  }

  /** One caller at a time fills an identity. */
  ghost predicate TakeGate(s: State, t: State, a: nat) {
    At(s, a).Missed? && (forall b :: b in s.phases ==> !HasGate(s.phases[b], At(s, a).id))
    && t == Moved(s, a, Gated(At(s, a).id))
  }

  /** The second look, behind the gate. */
  ghost predicate Recheck(s: State, t: State, a: nat) {
    At(s, a).Gated?
    && var id := At(s, a).id;
       t == match Find(s.lru, id)
         case Some(i) => Moved(s.(lru := Touched(s.lru, i)), a, Leaving(id, s.lru[i].serial))
         case None => Moved(s, a, Opening(id))
  }

  /** Outside the lock: the catalog is fetched and opened, or the call fails and gives up the gate. */
  ghost predicate Open(s: State, t: State, a: nat, ok: bool) {
    At(s, a).Opening?
    && t == if ok then Moved(s.(next := s.next + 1), a, Opened(At(s, a).id, s.next)) else Moved(s, a, Outside)
  }

  ghost predicate Insert(s: State, t: State, a: nat, cap: int) {
    At(s, a).Opened?
    && var id, serial := At(s, a).id, At(s, a).serial;
       var longer := [Handle(id, serial, 1)] + s.lru;
       var lru := Evicted(longer, cap);
       t == Moved(s.(lru := lru, closed := s.closed + (Serials(longer) - Serials(lru))), a, Leaving(id, serial))
  }

  ghost predicate DropGate(s: State, t: State, a: nat) {
    At(s, a).Leaving? && t == Moved(s, a, Using(At(s, a).id, At(s, a).serial))
  }

  /** Where the handle of an opening sits. */
  function Spot(lru: seq<Handle>, serial: nat): (r: Option<nat>)
    ensures r.Some? ==> r.value < |lru| && lru[r.value].serial == serial
    ensures r.None? ==> forall i :: 0 <= i < |lru| ==> lru[i].serial != serial
  {
    if lru == [] then None
    else if lru[0].serial == serial then Some(0)
    else match Spot(lru[1..], serial) case None => None case Some(i) => Some(i + 1)
  }

  /** Calling the release a successful acquire handed out, once. */
  ghost predicate Release(s: State, t: State, a: nat, cap: int) {
    || (At(s, a).UsingRoot? && t == Moved(s, a, Outside))
    || (At(s, a).Using? && Spot(s.lru, At(s, a).serial).Some?
        && var less := Fewer(s.lru, Spot(s.lru, At(s, a).serial).value);
           var lru := Evicted(less, cap);
           t == Moved(s.(lru := lru, closed := s.closed + (Serials(less) - Serials(lru))), a, Outside))
  }

  ghost predicate Step(s: State, t: State, cap: int, root: Bytes) {
    exists a: nat :: CallerStep(s, t, a, cap, root)
  }

  /** One critical section of one call. */
  ghost predicate CallerStep(s: State, t: State, a: nat, cap: int, root: Bytes) {
    || (exists id :: Look(s, t, a, id, root)) || TakeGate(s, t, a) || Recheck(s, t, a) || (exists ok :: Open(s, t, a, ok))
    || Insert(s, t, a, cap) || DropGate(s, t, a) || Release(s, t, a, cap)
  }

  // ---------- What every step keeps ----------

  ghost predicate HandlesOk(s: State) {
    && Distinct(s.lru) && (forall h :: h in s.lru ==> h.serial < s.next && h.serial !in s.closed)
    && (forall n :: n in s.closed ==> n < s.next)
  }

  /** A handle's count is the number of callers that have yet to release it. */
  ghost predicate CountsOk(s: State) {
    forall h :: h in s.lru ==> h.refs == |Callers(s, h.serial)|
  }

  ghost predicate Held(lru: seq<Handle>, id: Bytes, serial: nat) {
    exists h :: h in lru && h.id == id && h.serial == serial
  }

  /** A catalog in use is in the list, under the identity its caller asked for. */
  ghost predicate InUseOk(s: State) {
    forall a :: a in s.phases && (s.phases[a].Leaving? || s.phases[a].Using?) ==>
      Held(s.lru, s.phases[a].id, s.phases[a].serial)
  }

  /** One filler per identity, and the identity being filled is not open in the cache. */
  ghost predicate GatesOk(s: State) {
    && (forall a, b, id :: a in s.phases && b in s.phases && HasGate(s.phases[a], id) && HasGate(s.phases[b], id) ==> a == b)
    && (forall a :: a in s.phases && (s.phases[a].Opening? || s.phases[a].Opened?) ==> Absent(s.lru, s.phases[a].id))
  }

  ghost predicate Absent(lru: seq<Handle>, id: Bytes) {
    forall h :: h in lru ==> h.id != id
  }

  ghost predicate IsOpened(s: State, a: nat, n: nat) {
    a in s.phases && s.phases[a].Opened? && s.phases[a].serial == n
  }

  /** A catalog opened and not yet inserted is its caller's alone. */
  ghost predicate FreshOk(s: State) {
    && (forall a: nat, n: nat :: IsOpened(s, a, n) ==> n < s.next && n !in s.closed && forall h :: h in s.lru ==> h.serial != n)
    && (forall a: nat, b: nat, n: nat :: IsOpened(s, a, n) && IsOpened(s, b, n) ==> a == b)
  }

  ghost predicate Listed(lru: seq<Handle>, n: nat) {
    exists h :: h in lru && h.serial == n
  }

  /** Every opening is accounted for: in the list, in the hands of its opener, or closed. */
  ghost predicate NoneLost(s: State) {
    forall n: nat :: n < s.next ==> Listed(s.lru, n) || n in s.closed || exists a: nat :: IsOpened(s, a, n)
  }

  /** Over the cap only while nothing is idle. */
  ghost predicate CapOk(s: State, cap: int) {
    |s.lru| <= cap || forall h :: h in s.lru ==> h.refs != 0
  }

  ghost predicate Sound(s: State) {
    HandlesOk(s) && CountsOk(s) && InUseOk(s) && GatesOk(s) && FreshOk(s) && NoneLost(s)
  }

  ghost predicate Inv(s: State, cap: int) {
    Sound(s) && CapOk(s, cap)
  }

  lemma InitInv(s: State, cap: int)
    requires Init(s)
    ensures Inv(s, cap)
  {
  }

  // ---------- Callers ----------

  lemma CallersSame(s: State, t: State, a: nat, p: Phase, n: nat)
    requires t.phases == s.phases[a := p] && (Refers(At(s, a), n) <==> Refers(p, n))
    ensures Callers(t, n) == Callers(s, n)
  {
  }

  lemma CallersOneMore(s: State, t: State, a: nat, p: Phase, n: nat)
    requires t.phases == s.phases[a := p] && !Refers(At(s, a), n) && Refers(p, n)
    ensures |Callers(t, n)| == |Callers(s, n)| + 1
  {
    assert Callers(t, n) == Callers(s, n) + {a};
  }

  lemma CallersOneFewer(s: State, t: State, a: nat, p: Phase, n: nat)
    requires t.phases == s.phases[a := p] && Refers(At(s, a), n) && !Refers(p, n)
    ensures |Callers(t, n)| == |Callers(s, n)| - 1
  {
    assert Callers(s, n) == Callers(t, n) + {a};
  }

  // ---------- Steps that leave the list alone ----------

  /** A phase that neither holds a catalog nor has just opened one. */
  predicate Idle(p: Phase) {
    !p.Leaving? && !p.Using? && !p.Opened?
  }

  ghost predicate MayGate(s: State, a: nat, p: Phase) {
    && (forall id :: HasGate(p, id) && !HasGate(At(s, a), id) ==> forall b :: b in s.phases ==> !HasGate(s.phases[b], id))
    && (p.Opening? ==> Absent(s.lru, p.id))
  }

  lemma MoveKeepsGates(s: State, a: nat, p: Phase)
    requires GatesOk(s) && MayGate(s, a, p) && !p.Opened?
    ensures GatesOk(Moved(s, a, p))
  {
  }

  lemma IdleMove(s: State, a: nat, p: Phase)
    requires Sound(s) && Idle(At(s, a)) && Idle(p) && MayGate(s, a, p)
    ensures Sound(Moved(s, a, p))
  {
    hide GatesOk, MayGate, HasGate, Callers, Absent, Held, Listed;
    var t := Moved(s, a, p);
    MoveKeepsGates(s, a, p);
    forall h | h in t.lru
      ensures h.refs == |Callers(t, h.serial)|
    {
      CallersSame(s, t, a, p, h.serial);
    }
    SameOpened(s, t, a);
  }

  lemma SameOpened(s: State, t: State, a: nat)
    requires forall b :: b != a ==> At(t, b) == At(s, b)
    requires !At(s, a).Opened? && !At(t, a).Opened?
    ensures forall b: nat, n: nat :: IsOpened(t, b, n) <==> IsOpened(s, b, n)
  {
    forall b: nat, n: nat
      ensures IsOpened(t, b, n) <==> IsOpened(s, b, n)
    {
      assert IsOpened(t, b, n) <==> At(t, b).Opened? && At(t, b).serial == n;
      assert IsOpened(s, b, n) <==> At(s, b).Opened? && At(s, b).serial == n;
    }
  }

  /** The catalog has been opened, and only its opener knows. */
  lemma OpenMove(s: State, a: nat)
    requires Sound(s) && At(s, a).Opening?
    ensures Sound(Moved(s.(next := s.next + 1), a, Opened(At(s, a).id, s.next)))
  {
    hide HasGate, Callers, Absent, Held, Listed, GatesOk;
    var p := Opened(At(s, a).id, s.next);
    var t := Moved(s.(next := s.next + 1), a, p);
    OpenKeepsGates(s, a);
    forall h | h in t.lru
      ensures h.refs == |Callers(t, h.serial)|
    {
      CallersSame(s, t, a, p, h.serial);
    }
    OpenFresh(s, t, a);
  }

  lemma OpenKeepsGates(s: State, a: nat)
    requires GatesOk(s) && At(s, a).Opening?
    ensures GatesOk(Moved(s.(next := s.next + 1), a, Opened(At(s, a).id, s.next)))
  {
  }

  lemma OpenFresh(s: State, t: State, a: nat)
    requires Sound(s) && At(s, a).Opening? && t == Moved(s.(next := s.next + 1), a, Opened(At(s, a).id, s.next))
    ensures FreshOk(t) && NoneLost(t)
  {
    hide HasGate, Callers, Absent, Held, GatesOk, CountsOk, InUseOk;
    forall b: nat, n: nat
      ensures IsOpened(t, b, n) <==> (b == a && n == s.next) || IsOpened(s, b, n)
    {
      assert b != a ==> At(t, b) == At(s, b);
    }
    assert IsOpened(t, a, s.next);
  }

  /** Between acquiring and using: the gate goes, the reference stays. */
  lemma DropGateMove(s: State, a: nat)
    requires Sound(s) && At(s, a).Leaving?
    ensures Sound(Moved(s, a, Using(At(s, a).id, At(s, a).serial)))
  {
    hide HasGate, Callers, Absent, Held, Listed, GatesOk;
    var p := Using(At(s, a).id, At(s, a).serial);
    var t := Moved(s, a, p);
    UngatedMove(s, a, p);
    forall h | h in t.lru
      ensures h.refs == |Callers(t, h.serial)|
    {
      CallersSame(s, t, a, p, h.serial);
    }
    SameOpened(s, t, a);
  }

  lemma UngatedMove(s: State, a: nat, p: Phase)
    requires GatesOk(s) && (p.Using? || p.Outside?)
    ensures GatesOk(Moved(s, a, p))
  {
  }

  // ---------- Steps on the list ----------

  /** after holds what before does, with h' in the place of h. */
  ghost predicate Swapped(before: seq<Handle>, after: seq<Handle>, h: Handle, h': Handle) {
    && h in before && h'.id == h.id && h'.serial == h.serial && Distinct(after)
    && forall x :: x in after <==> x == h' || (x in before && x != h)
  }

  lemma TouchedSwaps(lru: seq<Handle>, i: nat)
    requires Distinct(lru) && i < |lru|
    ensures Swapped(lru, Touched(lru, i), lru[i], lru[i].(refs := lru[i].refs + 1))
    ensures |Touched(lru, i)| == |lru|
  {
    WithoutDistinct(lru, i);
    WithoutMembers(lru, i);
    assert lru[i] !in Without(lru, i);
  }

  lemma FewerSwaps(lru: seq<Handle>, i: nat)
    requires Distinct(lru) && i < |lru|
    ensures Swapped(lru, Fewer(lru, i), lru[i], lru[i].(refs := lru[i].refs - 1))
  {
    var after := Fewer(lru, i);
    forall x | x in lru && x != lru[i]
      ensures x in after
    {
      var k :| 0 <= k < |lru| && lru[k] == x;
      assert after[k] == x;
    }
    assert after[i] == lru[i].(refs := lru[i].refs - 1);
  }

  /** A swap changes no identity and no serial. */
  lemma SwappedSameNames(before: seq<Handle>, after: seq<Handle>, h: Handle, h': Handle)
    requires Swapped(before, after, h, h')
    ensures forall id, n :: Held(before, id, n) <==> Held(after, id, n)
    ensures forall id :: Absent(before, id) <==> Absent(after, id)
    ensures forall n :: Listed(before, n) <==> Listed(after, n)
  {
    hide Distinct;
    assert h' in after;
    forall id, n
      ensures Held(before, id, n) <==> Held(after, id, n)
    {
      if x :| x in before && x.id == id && x.serial == n {
        assert (if x == h then h' else x) in after;
      }
    }
    forall n
      ensures Listed(before, n) <==> Listed(after, n)
    {
      if x :| x in before && x.serial == n {
        assert (if x == h then h' else x) in after;
      }
    }
    forall id
      ensures Absent(before, id) <==> Absent(after, id)
    {
      if x :| x in before && x.id == id {
        assert (if x == h then h' else x) in after;
      }
    }
  }

  /** One caller takes or gives up a reference, and the handle's count follows. */
  lemma CountMove(s: State, t: State, a: nat, p: Phase, h: Handle, h': Handle)
    requires Sound(s) && t == Moved(s.(lru := t.lru), a, p) && Swapped(s.lru, t.lru, h, h')
    requires !At(s, a).Opened? && !p.Opened?
    requires forall n :: n != h.serial ==> (Refers(At(s, a), n) <==> Refers(p, n))
    requires h'.refs == |Callers(t, h.serial)|
    requires (p.Leaving? || p.Using?) ==> p.id == h.id && p.serial == h.serial
    requires GatesOk(t)
    ensures Sound(t)
  {
    hide GatesOk, Callers, Distinct, Held, Listed, Absent;
    SwappedSameNames(s.lru, t.lru, h, h');
    SameOpened(s, t, a);
    OneOfEach(s.lru, h);
    forall x | x in t.lru
      ensures x.refs == |Callers(t, x.serial)|
    {
      if x != h' {
        CallersSame(s, t, a, p, x.serial);
      }
    }
    HeldHere(s.lru, h);
  }

  lemma OneOfEach(lru: seq<Handle>, h: Handle)
    requires Distinct(lru) && h in lru
    ensures forall x :: x in lru && x != h ==> x.serial != h.serial && x.id != h.id
  {
  }

  lemma HeldHere(lru: seq<Handle>, h: Handle)
    requires h in lru
    ensures Held(lru, h.id, h.serial)
  {
  }

  /** A hit, on the first look or on the second. */
  lemma HitMove(s: State, a: nat, i: nat, p: Phase)
    requires Sound(s) && i < |s.lru|
    requires (At(s, a).Outside? && p == Using(s.lru[i].id, s.lru[i].serial))
          || (At(s, a) == Gated(s.lru[i].id) && p == Leaving(s.lru[i].id, s.lru[i].serial))
    ensures Sound(Moved(s.(lru := Touched(s.lru, i)), a, p))
  {
    hide Callers, Distinct, Touched, GatesOk, HasGate;
    var t := Moved(s.(lru := Touched(s.lru, i)), a, p);
    TouchedSwaps(s.lru, i);
    CallersOneMore(s, t, a, p, s.lru[i].serial);
    assert s.lru[i] in s.lru;
    HitKeepsGates(s, t, a, i, p);
    CountMove(s, t, a, p, s.lru[i], s.lru[i].(refs := s.lru[i].refs + 1));
  }

  lemma HitKeepsGates(s: State, t: State, a: nat, i: nat, p: Phase)
    requires GatesOk(s) && i < |s.lru| && t == Moved(s.(lru := Touched(s.lru, i)), a, p)
    requires Swapped(s.lru, t.lru, s.lru[i], s.lru[i].(refs := s.lru[i].refs + 1))
    requires p.Using? || (At(s, a).Gated? && p.Leaving? && p.id == At(s, a).id)
    ensures GatesOk(t)
  {
    hide Touched, Swapped, Absent;
    SwappedSameNames(s.lru, t.lru, s.lru[i], s.lru[i].(refs := s.lru[i].refs + 1));
  }

  /** A release, before anything is evicted. */
  lemma FewerMove(s: State, a: nat, i: nat)
    requires Sound(s) && i < |s.lru| && At(s, a).Using? && At(s, a).serial == s.lru[i].serial
    ensures Sound(Moved(s.(lru := Fewer(s.lru, i)), a, Outside))
  {
    hide Callers, Distinct, Fewer, GatesOk;
    var t := Moved(s.(lru := Fewer(s.lru, i)), a, Outside);
    var h := s.lru[i];
    FewerSwaps(s.lru, i);
    CallersOneFewer(s, t, a, Outside, h.serial);
    assert h in s.lru;
    FewerKeepsGates(s, t, a, h, h.(refs := h.refs - 1));
    CountMove(s, t, a, Outside, h, h.(refs := h.refs - 1));
  }

  lemma FewerKeepsGates(s: State, t: State, a: nat, h: Handle, h': Handle)
    requires GatesOk(s) && t == Moved(s.(lru := t.lru), a, Outside) && Swapped(s.lru, t.lru, h, h')
    ensures GatesOk(t)
  {
    hide Swapped, Absent;
    SwappedSameNames(s.lru, t.lru, h, h');
  }

  /** A freshly opened catalog enters the list with its opener's reference. */
  lemma InsertMove(s: State, a: nat)
    requires Sound(s) && At(s, a).Opened?
    ensures var p := At(s, a);
      Sound(Moved(s.(lru := [Handle(p.id, p.serial, 1)] + s.lru), a, Leaving(p.id, p.serial)))
  {
    hide Callers, Held, Listed, Absent, Distinct;
    var p, h := At(s, a), Handle(At(s, a).id, At(s, a).serial, 1);
    var t := Moved(s.(lru := [h] + s.lru), a, Leaving(p.id, p.serial));
    assert IsOpened(s, a, p.serial);
    NobodyYet(s, a);
    InsertDistinct(s.lru, h);
    InsertNames(s.lru, h);
    CallersOneMore(s, t, a, Leaving(p.id, p.serial), p.serial);
    forall x | x in t.lru
      ensures x.refs == |Callers(t, x.serial)|
    {
      if x != h {
        assert x in s.lru;
        CallersSame(s, t, a, Leaving(p.id, p.serial), x.serial);
      }
    }
    InsertKeepsGates(s, t, a);
    InsertFresh(s, t, a, h);
  }

  /** Until it is in the list nobody refers to an opened catalog. */
  lemma NobodyYet(s: State, a: nat)
    requires Sound(s) && At(s, a).Opened?
    ensures Callers(s, At(s, a).serial) == {}
    ensures Absent(s.lru, At(s, a).id) && forall h :: h in s.lru ==> h.serial != At(s, a).serial
  {
    hide CountsOk, NoneLost;
    assert IsOpened(s, a, At(s, a).serial);
    forall b | b in s.phases
      ensures !Refers(s.phases[b], At(s, a).serial)
    {
      if s.phases[b].Leaving? || s.phases[b].Using? {
        assert Held(s.lru, s.phases[b].id, s.phases[b].serial);
      }
    }
  }

  lemma InsertDistinct(lru: seq<Handle>, h: Handle)
    requires Distinct(lru) && Absent(lru, h.id) && forall x :: x in lru ==> x.serial != h.serial
    ensures Distinct([h] + lru)
  {
  }

  lemma InsertNames(lru: seq<Handle>, h: Handle)
    ensures forall id, n :: Held([h] + lru, id, n) <==> Held(lru, id, n) || (id == h.id && n == h.serial)
    ensures forall n :: Listed([h] + lru, n) <==> Listed(lru, n) || n == h.serial
    ensures forall id :: Absent([h] + lru, id) <==> Absent(lru, id) && id != h.id
  {
    var all := [h] + lru;
    assert forall x :: x in all <==> x == h || x in lru;
    assert h in all;
  }

  lemma InsertKeepsGates(s: State, t: State, a: nat)
    requires GatesOk(s) && At(s, a).Opened? && t == Moved(s.(lru := t.lru), a, Leaving(At(s, a).id, At(s, a).serial))
    requires forall id :: Absent(s.lru, id) && id != At(s, a).id ==> Absent(t.lru, id)
    ensures GatesOk(t)
  {
    hide Absent;
    assert HasGate(At(s, a), At(s, a).id);
  }

  lemma InsertFresh(s: State, t: State, a: nat, h: Handle)
    requires FreshOk(s) && NoneLost(s) && IsOpened(s, a, h.serial)
    requires t == Moved(s.(lru := [h] + s.lru), a, Leaving(At(s, a).id, At(s, a).serial))
    requires forall n :: Listed(t.lru, n) <==> Listed(s.lru, n) || n == h.serial
    ensures FreshOk(t) && NoneLost(t)
  {
    hide Listed;
    forall b: nat, n: nat
      ensures IsOpened(t, b, n) <==> b != a && IsOpened(s, b, n)
    {
      assert b != a ==> At(t, b) == At(s, b);
    }
    assert forall x :: x in t.lru ==> x == h || x in s.lru;
  }

  // ---------- Eviction ----------

  function Closing(lru: seq<Handle>, cap: int): set<nat> {
    Serials(lru) - Serials(Evicted(lru, cap))
  }

  /** Eviction closes only what nobody refers to, and leaves the cap met or everything in use. */
  lemma EvictMove(s: State, cap: int)
    requires Sound(s)
    ensures Inv(s.(lru := Evicted(s.lru, cap), closed := s.closed + Closing(s.lru, cap)), cap)
  {
    hide Evicted, Callers, GatesOk, Held, Listed, Absent, Distinct;
    var t := s.(lru := Evicted(s.lru, cap), closed := s.closed + Closing(s.lru, cap));
    EvictedKeeps(s.lru, cap);
    EvictedDistinct(s.lru, cap);
    ClosingAre(s.lru, cap);
    SameCallers(s, t);
    EvictKeepsUse(s, t, cap);
    EvictKeepsGates(s, t);
    EvictFresh(s, t, cap);
  }

  lemma SameCallers(s: State, t: State)
    requires t.phases == s.phases
    ensures forall n :: Callers(t, n) == Callers(s, n)
  {
  }

  /** What is closed is what leaves the list. */
  lemma ClosingAre(lru: seq<Handle>, cap: int)
    requires Distinct(lru)
    ensures forall n :: n in Closing(lru, cap) <==> Listed(lru, n) && !Listed(Evicted(lru, cap), n)
    ensures forall h :: h in Evicted(lru, cap) ==> h.serial !in Closing(lru, cap)
  {
    hide Evicted;
    ListedSerials(lru);
    ListedSerials(Evicted(lru, cap));
  }

  lemma ListedSerials(lru: seq<Handle>)
    ensures forall n :: n in Serials(lru) <==> Listed(lru, n)
    ensures forall h :: h in lru ==> Listed(lru, h.serial)
  {
  }

  lemma EvictKeepsUse(s: State, t: State, cap: int)
    requires Sound(s) && t.phases == s.phases && t.lru == Evicted(s.lru, cap)
    requires forall h :: h in s.lru && h !in t.lru ==> h.refs == 0
    ensures InUseOk(t)
  {
    hide Evicted, Distinct, GatesOk, FreshOk, NoneLost;
    forall a | a in t.phases && (t.phases[a].Leaving? || t.phases[a].Using?)
      ensures Held(t.lru, t.phases[a].id, t.phases[a].serial)
    {
      assert Held(s.lru, s.phases[a].id, s.phases[a].serial);
      var h :| h in s.lru && h.id == s.phases[a].id && h.serial == s.phases[a].serial;
      assert a in Callers(s, h.serial);
    }
  }

  lemma EvictKeepsGates(s: State, t: State)
    requires GatesOk(s) && t.phases == s.phases && forall h :: h in t.lru ==> h in s.lru
    ensures GatesOk(t)
  {
  }

  lemma EvictFresh(s: State, t: State, cap: int)
    requires Sound(s) && t == s.(lru := Evicted(s.lru, cap), closed := s.closed + Closing(s.lru, cap))
    requires forall h :: h in t.lru ==> h in s.lru
    requires forall n :: n in Closing(s.lru, cap) <==> Listed(s.lru, n) && !Listed(t.lru, n)
    ensures FreshOk(t) && NoneLost(t)
  {
    hide Evicted, Distinct, GatesOk, CountsOk, InUseOk, Closing;
    assert forall b: nat, n: nat :: IsOpened(t, b, n) <==> IsOpened(s, b, n);
  }

  // ---------- Every run ----------

  lemma LookKeeps(s: State, t: State, a: nat, id: Bytes, root: Bytes, cap: int)
    requires Inv(s, cap) && Look(s, t, a, id, root)
    ensures Inv(t, cap)
  {
    hide Sound, Touched, Find;
    if id == root {
      IdleKeeps(s, a, UsingRoot, cap);
    } else if Find(s.lru, id).Some? {
      var i := Find(s.lru, id).value;
      HitMove(s, a, i, Using(id, s.lru[i].serial));
      HitKeepsCap(s, i, cap);
    } else {
      IdleKeeps(s, a, Missed(id), cap);
    }
  }

  lemma IdleKeeps(s: State, a: nat, p: Phase, cap: int)
    requires Inv(s, cap) && Idle(At(s, a)) && Idle(p) && MayGate(s, a, p)
    ensures Inv(Moved(s, a, p), cap)
  {
    hide Sound, MayGate;
    IdleMove(s, a, p);
  }

  lemma HitKeepsCap(s: State, i: nat, cap: int)
    requires Inv(s, cap) && i < |s.lru|
    ensures |Touched(s.lru, i)| <= cap || forall h :: h in Touched(s.lru, i) ==> h.refs != 0
  {
    hide GatesOk, FreshOk, NoneLost, InUseOk, Touched, Callers;
    TouchedSwaps(s.lru, i);
    assert s.lru[i] in s.lru;
  }

  lemma RecheckKeeps(s: State, t: State, a: nat, cap: int)
    requires Inv(s, cap) && Recheck(s, t, a)
    ensures Inv(t, cap)
  {
    hide Sound, Touched;
    var id := At(s, a).id;
    if Find(s.lru, id).Some? {
      var i := Find(s.lru, id).value;
      HitMove(s, a, i, Leaving(id, s.lru[i].serial));
      HitKeepsCap(s, i, cap);
    } else {
      IdleKeeps(s, a, Opening(id), cap);
    }
  }

  lemma InsertKeeps(s: State, t: State, a: nat, cap: int)
    requires Inv(s, cap) && Insert(s, t, a, cap)
    ensures Inv(t, cap)
  {
    hide Sound, Evicted, CapOk;
    var p := At(s, a);
    var raw := Moved(s.(lru := [Handle(p.id, p.serial, 1)] + s.lru), a, Leaving(p.id, p.serial));
    InsertMove(s, a);
    EvictMove(raw, cap);
    assert t == raw.(lru := Evicted(raw.lru, cap), closed := raw.closed + Closing(raw.lru, cap));
  }

  lemma ReleaseKeeps(s: State, t: State, a: nat, cap: int)
    requires Inv(s, cap) && Release(s, t, a, cap)
    ensures Inv(t, cap)
  {
    hide Sound, Evicted, Fewer;
    if At(s, a).UsingRoot? {
      IdleKeeps(s, a, Outside, cap);
    } else {
      var i := Spot(s.lru, At(s, a).serial).value;
      var raw := Moved(s.(lru := Fewer(s.lru, i)), a, Outside);
      FewerMove(s, a, i);
      EvictMove(raw, cap);
      assert t == raw.(lru := Evicted(raw.lru, cap), closed := raw.closed + Closing(raw.lru, cap));
    }
  }

  lemma OpenKeeps(s: State, t: State, a: nat, ok: bool, cap: int)
    requires Inv(s, cap) && Open(s, t, a, ok)
    ensures Inv(t, cap)
  {
    hide Sound;
    if ok {
      OpenMove(s, a);
    } else {
      IdleKeeps(s, a, Outside, cap);
    }
  }

  lemma GateKeeps(s: State, t: State, a: nat, cap: int)
    requires Inv(s, cap) && (TakeGate(s, t, a) || DropGate(s, t, a))
    ensures Inv(t, cap)
  {
    hide Sound;
    if TakeGate(s, t, a) {
      IdleKeeps(s, a, Gated(At(s, a).id), cap);
    } else {
      DropGateMove(s, a);
    }
  }

  lemma StepKeeps(s: State, t: State, cap: int, root: Bytes)
    requires Inv(s, cap) && Step(s, t, cap, root)
    ensures Inv(t, cap)
  {
    hide Inv, Look, TakeGate, Recheck, Open, Insert, DropGate, Release;
    var a: nat :| CallerStep(s, t, a, cap, root);
    if id :| Look(s, t, a, id, root) {
      LookKeeps(s, t, a, id, root, cap);
    } else if ok :| Open(s, t, a, ok) {
      OpenKeeps(s, t, a, ok, cap);
    } else if Recheck(s, t, a) {
      RecheckKeeps(s, t, a, cap);
    } else if Insert(s, t, a, cap) {
      InsertKeeps(s, t, a, cap);
    } else if Release(s, t, a, cap) {
      ReleaseKeeps(s, t, a, cap);
    } else {
      GateKeeps(s, t, a, cap);
    }
  }

  ghost predicate Run(run: seq<State>, cap: int, root: Bytes) {
    run != [] && Init(run[0]) && forall i :: 0 < i < |run| ==> Step(run[i - 1], run[i], cap, root)
  }

  lemma {:induction false} RunKeeps(run: seq<State>, cap: int, root: Bytes, i: nat)
    requires Run(run, cap, root) && i < |run|
    ensures Inv(run[i], cap)
  {
    hide Inv, Init, Step;
    if i == 0 {
      InitInv(run[0], cap);
    } else {
      RunKeeps(run, cap, root, i - 1);
      StepKeeps(run[i - 1], run[i], cap, root);
    }
  }

  // ---------- What that means ----------

  /** In no run is a catalog closed that a caller has yet to release. */
  lemma NeverClosedInUse(run: seq<State>, cap: int, root: Bytes, i: nat, a: nat)
    requires Run(run, cap, root) && i < |run| && (At(run[i], a).Using? || At(run[i], a).Leaving?)
    ensures At(run[i], a).serial !in run[i].closed && At(run[i], a).serial < run[i].next
    ensures Held(run[i].lru, At(run[i], a).id, At(run[i], a).serial)
  {
    hide Run, GatesOk, FreshOk, NoneLost, CountsOk;
    RunKeeps(run, cap, root, i);
    var p := At(run[i], a);
    assert Held(run[i].lru, p.id, p.serial);
  }

  /** The openings of one identity that are not closed: in the list, or in an opener's hands. */
  ghost predicate OpenFor(s: State, id: Bytes, n: nat) {
    Held(s.lru, id, n) || exists a: nat :: IsOpened(s, a, n) && s.phases[a].id == id
  }

  /** In every run at most one handle per identity is open, and everything else opened is closed. */
  lemma OneOpenHandle(run: seq<State>, cap: int, root: Bytes, i: nat, id: Bytes, m: nat, n: nat)
    requires Run(run, cap, root) && i < |run| && OpenFor(run[i], id, m) && OpenFor(run[i], id, n)
    ensures m == n && n !in run[i].closed
  {
    hide Run, NoneLost, CountsOk, InUseOk;
    RunKeeps(run, cap, root, i);
    var s := run[i];
    if a: nat :| IsOpened(s, a, m) && s.phases[a].id == id {
      assert HasGate(s.phases[a], id);
    }
    if b: nat :| IsOpened(s, b, n) && s.phases[b].id == id {
      assert HasGate(s.phases[b], id);
    }
  }

  /** The list outgrows the cap only while each of its handles is some caller's. */
  lemma OverCapOnlyInUse(run: seq<State>, cap: int, root: Bytes, i: nat, h: Handle)
    requires Run(run, cap, root) && i < |run| && |run[i].lru| > cap && h in run[i].lru
    ensures h.refs == |Callers(run[i], h.serial)| && exists a :: a in run[i].phases && Refers(run[i].phases[a], h.serial)
  {
    hide Run, GatesOk, FreshOk, NoneLost, InUseOk;
    RunKeeps(run, cap, root, i);
    var callers := Callers(run[i], h.serial);
    assert callers != {};
    var a :| a in callers;
  }

  /** A matched release always finds its handle. */
  lemma ReleaseEnabled(run: seq<State>, cap: int, root: Bytes, i: nat, a: nat)
    requires Run(run, cap, root) && i < |run| && At(run[i], a).Using?
    ensures Spot(run[i].lru, At(run[i], a).serial).Some?
  {
    hide Run;
    NeverClosedInUse(run, cap, root, i, a);
  }
}
