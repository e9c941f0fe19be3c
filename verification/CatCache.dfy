/** The cache of open catalog handles: its critical sections, each run with the lock held. */
module CatCache {
  import opened Bytes
  import opened CatLru

  class CatHandle {
    const id: Bytes
    const serial: nat
    var refs: int
    /** Whether the catalog behind the handle is open. */
    var live: bool

    constructor (id: Bytes, serial: nat)
      ensures this.id == id && this.serial == serial && refs == 1 && live
    {
      this.id := id;
      this.serial := serial;
      refs := 1;
      live := true;
    }
  }

  // ---------- The list and the map ----------

  /** Each identity and each opening at most once. */
  ghost predicate Once(lru: seq<CatHandle>, next: nat) {
    && (forall i, j :: 0 <= i < j < |lru| ==> lru[i].id != lru[j].id)
    && (forall i, j :: 0 <= i < j < |lru| ==> lru[i].serial != lru[j].serial)
    && (forall i :: 0 <= i < |lru| ==> lru[i].serial < next)
  }

  /** The map and the list hold the same handles. */
  ghost predicate Linked(byID: map<Bytes, CatHandle>, lru: seq<CatHandle>) {
    && (forall h :: h in lru ==> h.id in byID && byID[h.id] == h)
    && (forall id :: id in byID ==> byID[id] in lru && byID[id].id == id)
  }

  ghost predicate AllLive(lru: seq<CatHandle>)
    reads lru
  {
    forall h :: h in lru ==> h.live
  }

  ghost function OrderOf(lru: seq<CatHandle>): (o: seq<Handle>)
    reads lru
    ensures |o| == |lru|
    ensures forall i :: 0 <= i < |o| ==> o[i] == Handle(lru[i].id, lru[i].serial, lru[i].refs)
  {
    if lru == [] then [] else [Handle(lru[0].id, lru[0].serial, lru[0].refs)] + OrderOf(lru[1..])
  }

  lemma OnceWithout(lru: seq<CatHandle>, next: nat, v: nat)
    requires Once(lru, next) && v < |lru|
    ensures Once(Without(lru, v), next) && lru[v] !in Without(lru, v)
  {
  }

  lemma OnceTouched(lru: seq<CatHandle>, next: nat, v: nat)
    requires Once(lru, next) && v < |lru|
    ensures Once([lru[v]] + Without(lru, v), next)
  {
  }

  lemma OnceInserted(lru: seq<CatHandle>, next: nat, h: CatHandle)
    requires Once(lru, next) && h.serial == next && forall x :: x in lru ==> x.id != h.id
    ensures Once([h] + lru, next + 1)
  {
  }

  lemma LinkedWithout(byID: map<Bytes, CatHandle>, lru: seq<CatHandle>, next: nat, v: nat)
    requires Linked(byID, lru) && Once(lru, next) && v < |lru|
    ensures Linked(byID - {lru[v].id}, Without(lru, v))
  {
    WithoutMembers(lru, v);
    OnceWithout(lru, next, v);
    forall h | h in Without(lru, v)
      ensures h.id != lru[v].id
    {
      assert byID[h.id] == h && byID[lru[v].id] == lru[v];
    }
  }

  lemma TouchedMembers(lru: seq<CatHandle>, v: nat)
    requires v < |lru|
    ensures forall h :: h in [lru[v]] + Without(lru, v) <==> h in lru
  {
    WithoutMembers(lru, v);
  }

  lemma FoundInMap(byID: map<Bytes, CatHandle>, lru: seq<CatHandle>, next: nat, id: Bytes)
    requires Linked(byID, lru) && Once(lru, next)
    ensures id in byID <==> Find(OrderOf(lru), id).Some?
    ensures id in byID ==> lru[Find(OrderOf(lru), id).value] == byID[id]
  {
    hide OrderOf;
    if id in byID {
      var i :| 0 <= i < |lru| && lru[i] == byID[id];
      assert OrderOf(lru)[i].id == id;
    }
    if Find(OrderOf(lru), id).Some? {
      var f := Find(OrderOf(lru), id).value;
      assert lru[f].id == id && lru[f] in lru;
    }
  }

  // ---------- The cache ----------

  class Cache {
    const cap: int
    const rootID: Bytes
    var byID: map<Bytes, CatHandle>
    /** Most recently used first. */
    var lru: seq<CatHandle>
    var next: nat
    var rootLive: bool

    constructor (cap: int, rootID: Bytes)
      ensures Valid() && Order() == [] && this.cap == cap && this.rootID == rootID && next == 0 && rootLive
    {
      this.cap := cap;
      this.rootID := rootID;
      byID := map[];
      lru := [];
      next := 0;
      rootLive := true;
    }

    ghost predicate Valid()
      reads this, lru
    {
      Once(lru, next) && Linked(byID, lru) && AllLive(lru)
    }

    ghost function Order(): seq<Handle>
      reads this, lru
    {
      OrderOf(lru)
    }

    method IndexOf(h: CatHandle) returns (i: nat)
      requires h in lru
      ensures i < |lru| && lru[i] == h
    {
      i := 0;
      while lru[i] != h
        invariant i < |lru| && forall k :: 0 <= k < i ==> lru[k] != h
        decreases |lru| - i
      {
        i := i + 1;
      }
    }

    /** acquire's look under the lock, the first time and again once the fill gate is held. */
    method Hit(id: Bytes) returns (h: CatHandle?)
      requires Valid()
      modifies this, lru
      ensures Valid() && next == old(next) && (forall x :: x in lru <==> x in old(lru))
      ensures h == null <==> Find(old(Order()), id).None?
      ensures h == null ==> Order() == old(Order())
      ensures h != null ==>
        Order() == Touched(old(Order()), Find(old(Order()), id).value) && h in lru && h.live && h.id == id
    {
      hide Once, Linked, Find;
      FoundInMap(byID, lru, next, id);
      if id !in byID {
        return null;
      }
      h := byID[id];
      ghost var f, o := Find(Order(), id).value, Order();
      ghost var was := lru;
      OnlyHere(lru, next, f);
      h.refs := h.refs + 1;
      assert OrderOf(lru) == o[f := o[f].(refs := o[f].refs + 1)];
      MoveToFront(h, f, o);
      assert Linked(byID, lru) by { StillLinked(byID, was, lru); }
    }

    method MoveToFront(h: CatHandle, ghost f: nat, ghost o: seq<Handle>)
      requires f < |lru| == |o| && lru[f] == h && Once(lru, next)
      requires OrderOf(lru) == o[f := o[f].(refs := o[f].refs + 1)] && o[f].id == h.id && o[f].serial == h.serial
      modifies this`lru
      ensures Once(lru, next) && (forall x :: x in lru <==> x in old(lru))
      ensures Order() == Touched(o, f)
    {
      hide Once, Touched, Without, OrderOf;
      var i := IndexOf(h);
      SamePosition(lru, next, i, f);
      OnceTouched(lru, next, i);
      TouchedMembers(lru, i);
      OrderTouched(lru, i, o);
      lru := [h] + Without(lru, i);
    }

    /** A freshly opened catalog goes in front with one reference, and something idle may have to go. */
    method Insert(id: Bytes) returns (h: CatHandle)
      requires Valid() && Find(Order(), id).None?
      modifies this, lru
      ensures Valid() && next == old(next) + 1 && fresh(h) && h.id == id && h.serial == old(next)
      ensures h.live <==> h in lru
      ensures Order() == Evicted([Handle(id, old(next), 1)] + old(Order()), cap)
      ensures forall x :: x in old(lru) && x !in lru ==> !x.live && x.refs == 0
    {
      hide Once, Linked, Find, Evicted, OrderOf;
      FoundInMap(byID, lru, next, id);
      h := new CatHandle(id, next);
      NoneNamed(byID, lru, id);
      OnceInserted(lru, next, h);
      LinkedInserted(byID, lru, h);
      OrderFront(lru, h);
      next := next + 1;
      lru := [h] + lru;
      byID := byID[id := h];
      EvictLocked();
    }

    /** A matched release: one reference fewer, and what the cap kept waiting may go now. */
    method Release(h: CatHandle, ghost i: nat)
      requires Valid() && i < |lru| && lru[i] == h
      modifies this, lru
      ensures Valid() && next == old(next)
      ensures Order() == Evicted(Fewer(old(Order()), i), cap)
      ensures forall x :: x in old(lru) && x !in lru ==> !x.live && x.refs == 0
    {
      hide Once, Linked, Evicted, OrderOf;
      ghost var o := Order();
      OnlyHere(lru, next, i);
      h.refs := h.refs - 1;
      assert Order() == Fewer(o, i);
      EvictLocked();
    }

    /** Closes idle handles from the back until the rest fit; one in use stays open however long. */
    method EvictLocked()
      requires Valid()
      modifies this`lru, this`byID, lru
      ensures Valid() && Order() == Evicted(old(Order()), cap)
      ensures forall x :: x in old(lru) ==> x.refs == old(x.refs)
      ensures forall x :: x in lru ==> x in old(lru)
      ensures forall x :: x in old(lru) && x !in lru ==> !x.live && x.refs == 0
    {
      hide Evicted, Once, Linked, Victim, Without, OrderOf;
      while |lru| > cap
        invariant Valid() && Evicted(Order(), cap) == Evicted(old(Order()), cap)
        invariant forall x :: x in lru ==> x in old(lru)
        invariant forall x :: x in old(lru) ==> x.refs == old(x.refs)
        invariant forall x :: x in old(lru) && x !in lru ==> !x.live && x.refs == 0
        decreases |lru|
      {
        EvictionStep(Order(), cap);
        var v := FindVictim();
        if v == |lru| {
          return;
        }
        WithoutMembers(lru, v);
        Drop(v);
      }
      EvictionStep(Order(), cap);
    }

    /** From the back, the first handle not in use; the length of the list if there is none. */
    method FindVictim() returns (v: nat)
      ensures v <= |lru| && if v == |lru| then Victim(Order()).None? else Victim(Order()) == Some(v)
      ensures v < |lru| ==> lru[v].refs == 0
    {
      hide OrderOf, Victim;
      ghost var o := Order();
      var e := |lru|;
      while e > 0
        invariant 0 <= e <= |lru| && forall k :: e <= k < |o| ==> o[k].refs != 0
      {
        if lru[e - 1].refs == 0 {
          v := e - 1;
          assert o[v].refs == 0;
          return;
        }
        assert o[e - 1].refs != 0;
        e := e - 1;
      }
      v := |lru|;
    }

    method Drop(v: nat)
      requires Valid() && v < |lru| && lru[v].refs == 0
      modifies this`lru, this`byID, lru[v]
      ensures Valid() && lru == Without(old(lru), v) && Order() == Without(old(Order()), v)
      ensures !old(lru[v]).live && old(lru[v]).refs == 0
    {
      hide Once, Linked, OrderOf, Without;
      var victim := lru[v];
      OnceWithout(lru, next, v);
      LinkedWithout(byID, lru, next, v);
      WithoutMembers(lru, v);
      ghost var was := lru;
      lru := Without(lru, v);
      byID := byID - {victim.id};
      victim.live := false;
      OrderWithout(was, v);
      assert OrderOf(was) == old(OrderOf(was));
    }

    /** What a sweep of spill files must leave alone: the root and exactly the catalogs open here. */
    method OpenSet() returns (out: set<Bytes>)
      requires Valid()
      ensures forall id :: id in out <==> id == rootID || exists h :: h in lru && h.id == id
    {
      out := {rootID} + byID.Keys;
    }

    /** Closes every handle, in use or not, and the root. */
    method CloseAll()
      requires Valid()
      modifies this, lru
      ensures Valid() && Order() == [] && !rootLive && forall x :: x in old(lru) ==> !x.live
    {
      var i := 0;
      while i < |lru|
        invariant i <= |lru| && lru == old(lru)
        invariant forall k :: 0 <= k < i ==> !lru[k].live
      {
        lru[i].live := false;
        i := i + 1;
      }
      lru := [];
      byID := map[];
      rootLive := false;
    }
  }

  lemma SamePosition(lru: seq<CatHandle>, next: nat, i: nat, f: nat)
    requires Once(lru, next) && i < |lru| && f < |lru| && lru[i] == lru[f]
    ensures i == f
  {
  }

  lemma OrderWithout(lru: seq<CatHandle>, i: nat)
    requires i < |lru|
    ensures OrderOf(Without(lru, i)) == Without(OrderOf(lru), i)
  {
    hide OrderOf;
    assert |OrderOf(Without(lru, i))| == |Without(OrderOf(lru), i)|;
    forall k | 0 <= k < |lru| - 1
      ensures OrderOf(Without(lru, i))[k] == Without(OrderOf(lru), i)[k]
    {
      var h := lru[if k < i then k else k + 1];
      assert Without(lru, i)[k] == h;
      assert OrderOf(Without(lru, i))[k] == Handle(h.id, h.serial, h.refs);
    }
  }

  lemma OrderFront(lru: seq<CatHandle>, h: CatHandle)
    ensures OrderOf([h] + lru) == [Handle(h.id, h.serial, h.refs)] + OrderOf(lru)
  {
    assert ([h] + lru)[1..] == lru;
  }

  lemma WithoutUpdated<T>(s: seq<T>, i: nat, x: T)
    requires i < |s|
    ensures Without(s[i := x], i) == Without(s, i)
  {
  }

  lemma OrderTouched(lru: seq<CatHandle>, i: nat, o: seq<Handle>)
    requires i < |lru| == |o| && OrderOf(lru) == o[i := o[i].(refs := o[i].refs + 1)]
    ensures OrderOf([lru[i]] + Without(lru, i)) == Touched(o, i)
  {
    hide OrderOf, Without;
    OrderFront(Without(lru, i), lru[i]);
    OrderWithout(lru, i);
    WithoutUpdated(o, i, OrderOf(lru)[i]);
  }

  lemma OnlyHere(lru: seq<CatHandle>, next: nat, i: nat)
    requires Once(lru, next) && i < |lru|
    ensures forall k :: 0 <= k < |lru| && k != i ==> lru[k] != lru[i]
  {
  }

  lemma StillLinked(byID: map<Bytes, CatHandle>, was: seq<CatHandle>, lru: seq<CatHandle>)
    requires Linked(byID, was) && forall h :: h in lru <==> h in was
    ensures Linked(byID, lru)
  {
  }

  lemma NoneNamed(byID: map<Bytes, CatHandle>, lru: seq<CatHandle>, id: Bytes)
    requires Linked(byID, lru) && id !in byID
    ensures forall h :: h in lru ==> h.id != id
  {
  }

  lemma LinkedInserted(byID: map<Bytes, CatHandle>, lru: seq<CatHandle>, h: CatHandle)
    requires Linked(byID, lru) && h.id !in byID
    ensures Linked(byID[h.id := h], [h] + lru)
  {
  }
}
