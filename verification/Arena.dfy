/**
  Interning: variable-length strings stored once each in one growing byte string.  Offsets are
  handed out in the order strings first appear, so the same strings in the same order always give
  the same bytes.
 */
module Arena {
  import opened Bytes

  datatype Interned = Interned(buf: Bytes, at: map<Bytes, nat>)

  const EMPTY := Interned([], map[])

  /** One string interned: nothing happens to an empty one or one already there. */
  function AddTo(a: Interned, s: Bytes): Interned {
    if s == [] || s in a.at then a else Interned(a.buf + s, a.at[s := |a.buf|])
  }

  ghost function Intern(strings: seq<Bytes>): Interned {
    if strings == [] then EMPTY else AddTo(Intern(strings[..|strings| - 1]), strings[|strings| - 1])
  }

  /** The offset recorded for s; an empty string needs none. */
  function OffsetOf(a: Interned, s: Bytes): nat {
    if s in a.at then a.at[s] else 0
  }

  ghost predicate Holds(a: Interned, s: Bytes) {
    s == [] || (s in a.at && a.at[s] + |s| <= |a.buf| && a.buf[a.at[s]..a.at[s] + |s|] == s)
  }

  ghost predicate Sound(a: Interned) {
    forall s :: s in a.at ==> s != [] && Holds(a, s)
  }

  /** b keeps every string of a where it was. */
  ghost predicate Extends(b: Interned, a: Interned) {
    a.buf <= b.buf && forall s :: s in a.at ==> s in b.at && b.at[s] == a.at[s]
  }

  lemma AddSound(a: Interned, s: Bytes)
    requires Sound(a)
    ensures Sound(AddTo(a, s)) && Holds(AddTo(a, s), s) && Extends(AddTo(a, s), a)
  {
    var b := AddTo(a, s);
    forall t | t in b.at
      ensures t != [] && Holds(b, t)
    {
      if t in a.at {
        assert Holds(a, t);
        assert b.buf[a.at[t]..a.at[t] + |t|] == a.buf[a.at[t]..a.at[t] + |t|];
      }
    }
  }

  lemma {:induction false} InternSound(strings: seq<Bytes>)
    ensures Sound(Intern(strings))
    ensures forall k :: 0 <= k < |strings| ==> Holds(Intern(strings), strings[k])
  {
    if strings != [] {
      var n := |strings| - 1;
      InternSound(strings[..n]);
      AddSound(Intern(strings[..n]), strings[n]);
      forall k | 0 <= k < n
        ensures Holds(Intern(strings), strings[k])
      {
        assert Holds(Intern(strings[..n]), strings[..n][k]);
      }
    }
  }

  lemma {:induction false} InternExtends(a: seq<Bytes>, b: seq<Bytes>)
    ensures Extends(Intern(a + b), Intern(a))
  {
    if b == [] {
      assert a + b == a;
    } else {
      var n := |b| - 1;
      InternExtends(a, b[..n]);
      assert (a + b)[..|a + b| - 1] == a + b[..n];
      InternSound(a + b[..n]);
      AddSound(Intern(a + b[..n]), b[n]);
    }
  }

  lemma InternOne(strings: seq<Bytes>, s: Bytes)
    ensures Intern(strings + [s]) == AddTo(Intern(strings), s)
  {
    assert (strings + [s])[..|strings|] == strings;
  }

  // ---------- The order of the strings ----------

  lemma {:induction false} InternKeys(strings: seq<Bytes>, s: Bytes)
    ensures s in Intern(strings).at <==> s in strings && s != []
  {
    if strings != [] {
      var n := |strings| - 1;
      InternKeys(strings[..n], s);
      assert strings == strings[..n] + [strings[n]];
    }
  }

  /** How long the arena gets does not depend on the order of the strings, only where each one sits. */
  lemma {:induction false} SwappedSize(u: seq<Bytes>, x: Bytes, y: Bytes, v: seq<Bytes>)
    ensures |Intern(u + [x, y] + v).buf| == |Intern(u + [y, x] + v).buf|
  {
    hide Intern;
    if v == [] {
      assert u + [x, y] + v == u + [x] + [y] && u + [y, x] + v == u + [y] + [x];
      InternOne(u, x);
      InternOne(u, y);
      InternOne(u + [x], y);
      InternOne(u + [y], x);
    } else {
      var n := |v| - 1;
      SwappedSize(u, x, y, v[..n]);
      var a, b := u + [x, y] + v[..n], u + [y, x] + v[..n];
      assert u + [x, y] + v == a + [v[n]] && u + [y, x] + v == b + [v[n]];
      InternOne(a, v[n]);
      InternOne(b, v[n]);
      InternKeys(a, v[n]);
      InternKeys(b, v[n]);
      assert v[n] in a <==> v[n] in b;
    }
  }

  lemma {:induction false} ArenaEmptyExactly(strings: seq<Bytes>)
    ensures Intern(strings).buf == [] <==> forall s :: s in strings ==> s == []
    ensures Intern(strings).buf == [] ==> Intern(strings) == EMPTY
  {
    if strings != [] {
      var n := |strings| - 1;
      ArenaEmptyExactly(strings[..n]);
      assert strings == strings[..n] + [strings[n]];
      var front := Intern(strings[..n]);
      if strings[n] == [] {
        assert Intern(strings) == front;
        assert forall s :: s in strings <==> s in strings[..n] || s == [];
      } else {
        InternSound(strings);
        assert Holds(Intern(strings), strings[n]);
        assert strings[n] in strings && |Intern(strings).buf| >= |strings[n]|;
      }
    }
  }

  const IDENTITY_LEN := 32

  /** Identities are stored back to back, so an offset is a whole number of identities. */
  ghost predicate WholeIdentities(a: Interned, n: nat) {
    && |a.buf| % IDENTITY_LEN == 0 && |a.buf| / IDENTITY_LEN <= n
    && forall s :: s in a.at ==> |s| == IDENTITY_LEN && a.at[s] % IDENTITY_LEN == 0 && a.at[s] / IDENTITY_LEN < n
  }

  lemma {:induction false} InternWhole(strings: seq<Bytes>)
    requires forall k :: 0 <= k < |strings| ==> |strings[k]| == IDENTITY_LEN
    ensures WholeIdentities(Intern(strings), |strings|)
  {
    if strings != [] {
      var n := |strings| - 1;
      InternWhole(strings[..n]);
      AddWhole(Intern(strings[..n]), strings[n], n);
    }
  }

  lemma AddWhole(a: Interned, s: Bytes, n: nat)
    requires WholeIdentities(a, n) && |s| == IDENTITY_LEN
    ensures WholeIdentities(AddTo(a, s), n + 1)
  {
  }

  ghost function Cell(a: Interned, p: nat): Bytes {
    if (p + 1) * IDENTITY_LEN <= |a.buf| then a.buf[p * IDENTITY_LEN..(p + 1) * IDENTITY_LEN] else []
  }

  /** Every identity is stored once: whichever place it is read from is the one recorded for it. */
  ghost predicate StoredOnce(a: Interned) {
    forall p: nat :: Cell(a, p) != [] ==> Cell(a, p) in a.at && a.at[Cell(a, p)] == p * IDENTITY_LEN
  }

  lemma {:induction false} InternOnce(strings: seq<Bytes>)
    requires forall k :: 0 <= k < |strings| ==> |strings[k]| == IDENTITY_LEN
    ensures StoredOnce(Intern(strings))
  {
    if strings != [] {
      var n := |strings| - 1;
      InternOnce(strings[..n]);
      InternWhole(strings[..n]);
      AddOnce(Intern(strings[..n]), strings[n], n);
    }
  }

  lemma AddOnce(a: Interned, s: Bytes, n: nat)
    requires WholeIdentities(a, n) && StoredOnce(a) && |s| == IDENTITY_LEN
    ensures StoredOnce(AddTo(a, s))
  {
    var b := AddTo(a, s);
    if s !in a.at {
      forall p: nat | Cell(b, p) != []
        ensures Cell(b, p) in b.at && b.at[Cell(b, p)] == p * IDENTITY_LEN
      {
        if (p + 1) * IDENTITY_LEN <= |a.buf| {
          assert Cell(b, p) == Cell(a, p);
        } else {
          assert p * IDENTITY_LEN == |a.buf|;
          assert Cell(b, p) == s;
        }
      }
    }
  }

  // ---------- The builder ----------

  const ARENA_MAX := 0xffff_ffff

  class Builder {
    var buf: Bytes
    var at: map<Bytes, nat>
    /** Everything added so far, in order. */
    ghost var strings: seq<Bytes>

    constructor ()
      ensures Valid() && strings == []
    {
      buf := [];
      at := map[];
      strings := [];
    }

    ghost predicate Valid()
      reads this
    {
      Interned(buf, at) == Intern(strings) && |buf| <= ARENA_MAX
    }

    /** Hands back where b sits, or None when the arena would pass 4 GiB. */
    method Add(b: Bytes) returns (off: Option<nat>)
      requires Valid()
      modifies this
      ensures off.Some? <==> |Intern(old(strings) + [b]).buf| <= ARENA_MAX
      ensures off.Some? ==>
        && Valid() && strings == old(strings) + [b] && off.value == OffsetOf(Intern(strings), b)
    {
      InternSound(strings);
      InternOne(strings, b);
      ghost var before := strings;
      if b == [] {
        strings := strings + [b];
        return Some(0);
      }
      if b in at {
        strings := strings + [b];
        return Some(at[b]);
      }
      if |buf| + |b| > ARENA_MAX {
        return None;
      }
      var start := |buf|;
      buf := buf + b;
      at := at[b := start];
      strings := strings + [b];
      return Some(start);
    }
  }

  lemma {:induction false} InternWithin(all: seq<Bytes>, k: nat)
    requires k < |all|
    ensures |Intern(all[..k + 1]).buf| <= |Intern(all).buf|
    ensures OffsetOf(Intern(all[..k + 1]), all[k]) == OffsetOf(Intern(all), all[k])
    ensures OffsetOf(Intern(all), all[k]) <= |Intern(all).buf|
  {
    assert all == all[..k + 1] + all[k + 1..];
    InternExtends(all[..k + 1], all[k + 1..]);
    InternSound(all[..k + 1]);
    InternSound(all);
    assert all[..k + 1][k] == all[k];
  }

  /**
    Interns the next of the strings `all`: the offset handed back now is the one the finished
    arena records, because nothing interned later moves anything.
   */
  method InternNext(b: Builder, s: Bytes, ghost all: seq<Bytes>) returns (off: Option<nat>)
    requires b.Valid() && |b.strings| < |all| && b.strings == all[..|b.strings|] && all[|b.strings|] == s
    modifies b
    ensures off.Some? ==>
      && b.Valid() && |b.strings| == |old(b.strings)| + 1 && b.strings == all[..|b.strings|]
      && off.value == OffsetOf(Intern(all), s)
    ensures off.None? ==> |Intern(all).buf| > ARENA_MAX
  {
    hide Intern;
    ghost var k := |b.strings|;
    assert all[..k + 1] == all[..k] + [s];
    InternWithin(all, k);
    off := b.Add(s);
  }

  /** The table of 32-byte identities, each stored once and named by its position. */
  class IdentityTable {
    var buf: Bytes
    var at: map<Bytes, nat>
    ghost var ids: seq<Bytes>

    constructor ()
      ensures Valid() && ids == []
    {
      buf := [];
      at := map[];
      ids := [];
    }

    ghost predicate Valid()
      reads this
    {
      && (forall k :: 0 <= k < |ids| ==> |ids[k]| == IDENTITY_LEN)
      && buf == Intern(ids).buf && at.Keys == Intern(ids).at.Keys
      && forall s :: s in at ==> at[s] == Intern(ids).at[s] / IDENTITY_LEN
    }

    method Add(id: Bytes) returns (idx: nat)
      requires Valid() && |id| == IDENTITY_LEN
      modifies this
      ensures Valid() && ids == old(ids) + [id] && idx == OffsetOf(Intern(ids), id) / IDENTITY_LEN
    {
      InternWhole(ids);
      InternOne(ids, id);
      if id in at {
        idx := at[id];
        ids := ids + [id];
        return;
      }
      idx := |buf| / IDENTITY_LEN;
      buf := buf + id;
      at := at[id := idx];
      ids := ids + [id];
    }
  }
}
