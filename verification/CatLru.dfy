/** The order open catalog handles are kept in, most recently used first, and who is evicted from it. */
module CatLru {
  import opened Bytes

  /** An open handle: serial tells one opening of a catalog from the next. */
  datatype Handle = Handle(id: Bytes, serial: nat, refs: int)

  ghost predicate Distinct(lru: seq<Handle>) {
    && (forall i, j :: 0 <= i < j < |lru| ==> lru[i].id != lru[j].id)
    && (forall i, j :: 0 <= i < j < |lru| ==> lru[i].serial != lru[j].serial)
  }

  /** Where the identity is, if it is open here. */
  function Find(lru: seq<Handle>, id: Bytes): (r: Option<nat>)
    ensures r.Some? ==> r.value < |lru| && lru[r.value].id == id
    ensures r.None? ==> forall i :: 0 <= i < |lru| ==> lru[i].id != id
  {
    if lru == [] then None
    else if lru[0].id == id then Some(0)
    else match Find(lru[1..], id) case None => None case Some(i) => Some(i + 1)
  }

  function Without<T>(s: seq<T>, i: nat): (r: seq<T>)
    requires i < |s|
    ensures |r| == |s| - 1
    ensures forall k :: 0 <= k < |r| ==> r[k] == if k < i then s[k] else s[k + 1]
  {
    s[..i] + s[i + 1..]
  }

  /** One more reference, and to the front. */
  function Touched(lru: seq<Handle>, i: nat): seq<Handle>
    requires i < |lru|
  {
    [lru[i].(refs := lru[i].refs + 1)] + Without(lru, i)
  }

  /** One reference fewer, in place. */
  function Fewer(lru: seq<Handle>, i: nat): seq<Handle>
    requires i < |lru|
  {
    lru[i := lru[i].(refs := lru[i].refs - 1)]
  }

  /** The idle handle nearest the back. */
  function Victim(lru: seq<Handle>): (r: Option<nat>)
    ensures r.Some? ==> r.value < |lru| && lru[r.value].refs == 0
                        && forall k :: r.value < k < |lru| ==> lru[k].refs != 0
    ensures r.None? ==> forall k :: 0 <= k < |lru| ==> lru[k].refs != 0
  {
    if lru == [] then None
    else if lru[|lru| - 1].refs == 0 then Some(|lru| - 1)
    else Victim(lru[..|lru| - 1])
  }

  /** Idle handles go, least recently used first, until the rest fit or none is idle. */
  function Evicted(lru: seq<Handle>, cap: int): (r: seq<Handle>)
    ensures |r| <= cap || forall k :: 0 <= k < |r| ==> r[k].refs != 0
    decreases |lru|
  {
    if |lru| <= cap then lru
    else match Victim(lru)
      case None => lru
      case Some(v) => Evicted(Without(lru, v), cap)
  }

  lemma WithoutMembers<T>(s: seq<T>, i: nat)
    requires i < |s|
    ensures forall x :: x in Without(s, i) ==> x in s
    ensures forall x :: x in s && x !in Without(s, i) ==> x == s[i]
  {
    forall x | x in s
      ensures x == s[i] || x in Without(s, i)
    {
      var k :| 0 <= k < |s| && s[k] == x;
      if k != i {
        assert Without(s, i)[if k < i then k else k - 1] == x;
      }
    }
  }

  lemma WithoutDistinct(lru: seq<Handle>, i: nat)
    requires Distinct(lru) && i < |lru|
    ensures Distinct(Without(lru, i)) && lru[i].serial !in Serials(Without(lru, i))
  {
  }

  lemma EvictionStep(lru: seq<Handle>, cap: int)
    ensures Evicted(lru, cap) ==
            if |lru| <= cap || Victim(lru).None? then lru else Evicted(Without(lru, Victim(lru).value), cap)
  {
  }

  /** Eviction takes idle handles and nothing else. */
  lemma {:induction false} EvictedKeeps(lru: seq<Handle>, cap: int)
    ensures forall h :: h in Evicted(lru, cap) ==> h in lru
    ensures forall h :: h in lru && h !in Evicted(lru, cap) ==> h.refs == 0
    decreases |lru|
  {
    hide Evicted, Without, Victim;
    EvictionStep(lru, cap);
    if |lru| > cap && Victim(lru).Some? {
      var v := Victim(lru).value;
      EvictedKeeps(Without(lru, v), cap);
      WithoutMembers(lru, v);
    }
  }

  lemma {:induction false} EvictedDistinct(lru: seq<Handle>, cap: int)
    requires Distinct(lru)
    ensures Distinct(Evicted(lru, cap))
    decreases |lru|
  {
    hide Evicted, Without, Victim, Distinct;
    EvictionStep(lru, cap);
    if |lru| > cap && Victim(lru).Some? {
      var v := Victim(lru).value;
      WithoutDistinct(lru, v);
      EvictedDistinct(Without(lru, v), cap);
    }
  }

  /** It does not go below the cap, either. */
  lemma {:induction false} EvictedNoFurther(lru: seq<Handle>, cap: int)
    requires |lru| >= cap
    ensures |Evicted(lru, cap)| >= cap
    decreases |lru|
  {
    if |lru| > cap && Victim(lru).Some? {
      EvictedNoFurther(Without(lru, Victim(lru).value), cap);
    }
  }

  function Serials(lru: seq<Handle>): (s: set<nat>)
    ensures forall n :: n in s <==> exists i :: 0 <= i < |lru| && lru[i].serial == n
  {
    set i | 0 <= i < |lru| :: lru[i].serial
  }

  // ---------- Who goes, by position ----------

  /** The idle handles behind position i, that is, used less recently. */
  ghost function IdleBehind(lru: seq<Handle>, i: int): set<nat> {
    set k: nat | k < |lru| && i < k && lru[k].refs == 0
  }

  /** The handle at i goes exactly if it is idle and those idle behind it are too few to bring the rest to the cap. */
  ghost predicate Goes(lru: seq<Handle>, cap: int, i: nat)
    requires i < |lru|
  {
    lru[i].refs == 0 && |IdleBehind(lru, i)| < |lru| - cap
  }

  /** Where what is left was: the positions kept, in order. */
  ghost predicate KeptAt(lru: seq<Handle>, cap: int, out: seq<Handle>, at: seq<nat>) {
    && |at| == |out| && (forall a, b :: 0 <= a < b < |at| ==> at[a] < at[b])
    && (forall a :: 0 <= a < |at| ==> at[a] < |lru| && out[a] == lru[at[a]])
    && forall i: nat :: i < |lru| ==> (i in at <==> !Goes(lru, cap, i))
  }

  lemma AllKept(lru: seq<Handle>, cap: int) returns (at: seq<nat>)
    requires |lru| <= cap || forall i :: 0 <= i < |lru| ==> lru[i].refs != 0
    ensures KeptAt(lru, cap, lru, at)
  {
    at := seq(|lru|, (i: nat) => i);
    forall i: nat | i < |lru|
      ensures i in at
    {
      assert at[i] == i;
    }
  }

  /** Behind the victim nothing is idle; in front of it one fewer is, and there is one fewer to go. */
  lemma GoesWithout(lru: seq<Handle>, cap: int, v: nat, i: nat)
    requires v < |lru| && lru[v].refs == 0 && (forall k :: v < k < |lru| ==> lru[k].refs != 0) && |lru| > cap
    requires i < |lru| - 1
    ensures Goes(Without(lru, v), cap, i) <==> Goes(lru, cap, if i < v then i else i + 1)
    ensures Goes(lru, cap, v)
  {
    var less := Without(lru, v);
    assert IdleBehind(lru, v) == {};
    if i < v {
      var behind := IdleBehind(less, i);
      assert forall k: nat :: k in behind ==> k < v && lru[k].refs == 0;
      assert IdleBehind(lru, i) == behind + {v};
    }
  }

  /** So eviction is exact: which positions stay, and that what stays keeps its order. */
  lemma {:induction false} EvictedExactly(lru: seq<Handle>, cap: int) returns (at: seq<nat>)
    ensures KeptAt(lru, cap, Evicted(lru, cap), at)
    decreases |lru|
  {
    hide Evicted, Victim, Goes, KeptAt, Without;
    EvictionStep(lru, cap);
    if |lru| <= cap || Victim(lru).None? {
      at := AllKept(lru, cap);
    } else {
      var v := Victim(lru).value;
      var kept := EvictedExactly(Without(lru, v), cap);
      at := Shifted(lru, cap, v, Evicted(lru, cap), kept);
    }
  }

  lemma Shifted(lru: seq<Handle>, cap: int, v: nat, out: seq<Handle>, kept: seq<nat>) returns (at: seq<nat>)
    requires v < |lru| && lru[v].refs == 0 && (forall k :: v < k < |lru| ==> lru[k].refs != 0) && |lru| > cap
    requires KeptAt(Without(lru, v), cap, out, kept)
    ensures KeptAt(lru, cap, out, at)
  {
    hide Goes;
    at := seq(|kept|, (a: nat) requires a < |kept| => if kept[a] < v then kept[a] else kept[a] + 1);
    var less := Without(lru, v);
    forall i: nat | i < |lru|
      ensures i in at <==> !Goes(lru, cap, i)
    {
      if i == v {
        assert v !in at;
        if |lru| > 1 {
          GoesWithout(lru, cap, v, 0);
        } else {
          OnlyGoes(lru, cap);
        }
      } else {
        var j := if i < v then i else i - 1;
        GoesWithout(lru, cap, v, j);
        if j in kept {
          var a :| 0 <= a < |kept| && kept[a] == j;
          assert at[a] == i;
        }
        if i in at {
          var a :| 0 <= a < |at| && at[a] == i;
          assert kept[a] == j;
        }
      }
    }
  }

  lemma OnlyGoes(lru: seq<Handle>, cap: int)
    requires |lru| == 1 && lru[0].refs == 0 && cap < 1
    ensures Goes(lru, cap, 0)
  {
    assert IdleBehind(lru, 0) == {};
  }
}
