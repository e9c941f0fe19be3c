/** What each step of a walk does to its trail: quiet ones, entering, coming round again, going deeper. */
module FsckSteps {
  import opened Bytes
  import opened LittleEndian
  import opened CatalogRecords
  import opened StaticQueries
  import opened FsckVolume
  import opened FsckReport
  import opened FsckTrail

  // ---------- Termination ----------

  ghost function Unwalked(walked: set<i64>): set<i64> {
    set i: i64 | -U63_RANGE <= i < U63_RANGE && i !in walked
  }

  lemma FewerUnwalked(a: set<i64>, b: set<i64>)
    requires a <= b
    ensures |Unwalked(b)| <= |Unwalked(a)|
    ensures a != b ==> |Unwalked(b)| < |Unwalked(a)|
  {
    Smaller(Unwalked(b), Unwalked(a));
    if a != b {
      var i :| i in b && i !in a;
      assert i in Unwalked(a) && i !in Unwalked(b);
    }
  }

  lemma {:induction false} Smaller<T>(a: set<T>, b: set<T>)
    requires a <= b
    ensures |a| <= |b| && (a != b ==> |a| < |b|)
  {
    if a != {} {
      var x :| x in a;
      Smaller(a - {x}, b - {x});
    } else if b != {} {
      var x :| x in b;
    }
  }

  // ---------- Trail steps ----------

  /** Nothing entered or finished: only marks, jobs and looks, none at a directory that was there already. */
  ghost predicate Quiet(a: Trail, b: Trail) {
    Grew(a, b) && b.via == a.via && b.at == a.at && b.finished == a.finished && b.cycles == a.cycles
  }

  lemma QuietItself(a: Trail)
    ensures Quiet(a, a)
  {
  }

  lemma StillLooked(a: Trail, b: Trail, cat: Reader, s: Spot, k: nat)
    requires Quiet(a, b) && NameLooked(a, cat, s, k)
    ensures NameLooked(b, cat, s, k)
  {
  }

  lemma StillTold(a: Trail, b: Trail, look: Look)
    requires Quiet(a, b) && look in a.told
    ensures look in b.told
  {
  }

  lemma ReturnGrew(a: Trail, b: Trail, look: Look)
    requires b == a.(cycles := a.cycles + 1, told := a.told + {look})
    ensures Grew(a, b)
  {
  }

  lemma ReturnWalked(a: Trail, b: Trail, s: Spot, steps: seq<nat>, path: seq<Bytes>)
    requires s in a.via && b == a.(cycles := a.cycles + 1, told := a.told + {Returning(s, path)})
    ensures Walked(a, b, s, steps) && Came(b, s, steps, path)
  {
  }

  lemma ToldStays(a: Trail, b: Trail, c: Trail, look: Look)
    requires look in a.told && Quiet(a, b) && Grew(b, c)
    ensures look in c.told
  {
  }

  lemma InsideGrew(t: Trail, now: Trail, s: Spot, steps: seq<nat>)
    requires Inside(t, now, s, steps)
    ensures Grew(t, now)
  {
  }

  lemma QuietTransitive(a: Trail, b: Trail, c: Trail)
    requires Quiet(a, b) && Quiet(b, c)
    ensures Quiet(a, c)
  {
  }

  lemma QuietKeeps(a: Trail, b: Trail, vol: Volume)
    requires Quiet(a, b) && Settled(a, vol) && Anchored(a, vol)
    ensures Settled(b, vol) && Anchored(b, vol)
  {
    hide SpotDone, TwoWays;
    StaysSettled(a, b, vol);
    AnchorsStay(a, b, vol);
    if b.cycles > 0 {
      TwoWaysStay(vol, a, b);
    }
  }

  lemma AnchorsStay(a: Trail, b: Trail, vol: Volume)
    requires Grew(a, b) && Anchored(a, vol)
    ensures forall s :: s in a.via ==> AnchoredAt(b, vol, s)
  {
    hide Follow, TwoWays;
    forall s | s in a.via
      ensures AnchoredAt(b, vol, s)
    {
      assert AnchoredAt(a, vol, s);
    }
  }

  lemma SeenKeeps(t: Trail, vol: Volume, ino: i64)
    requires Settled(t, vol) && Anchored(t, vol)
    ensures var b := t.(seen := t.seen + {ino}); Quiet(t, b) && Settled(b, vol) && Anchored(b, vol)
  {
    hide Settled, Anchored;
    QuietKeeps(t, t.(seen := t.seen + {ino}), vol);
  }

  lemma LookKeeps(t: Trail, vol: Volume, look: Look)
    requires Settled(t, vol) && Anchored(t, vol)
    ensures var b := t.(told := t.told + {look}); Quiet(t, b) && Settled(b, vol) && Anchored(b, vol)
  {
    hide Settled, Anchored;
    QuietKeeps(t, t.(told := t.told + {look}), vol);
  }

  lemma QueueKeeps(t: Trail, vol: Volume, id: Bytes, ino: i64)
    requires Settled(t, vol) && Anchored(t, vol) && id !in t.starts
    ensures var b := t.(starts := t.starts[id := ino]); Quiet(t, b) && Settled(b, vol) && Anchored(b, vol)
  {
    hide Settled, Anchored;
    QuietKeeps(t, t.(starts := t.starts[id := ino]), vol);
  }

  /** Entering one more directory, at the end of its steps. */
  lemma EnterKeeps(a: Trail, b: Trail, vol: Volume, s: Spot, steps: seq<nat>, path: seq<Bytes>)
    requires s !in a.via && s !in a.at && b == a.(via := a.via[s := steps], at := a.at[s := path])
    requires Settled(a, vol) && Anchored(a, vol)
    requires AnchoredAt(b, vol, s)
    ensures Grew(a, b) && Settled(b, vol) && Anchored(b, vol)
  {
    hide SpotDone, TwoWays, Follow;
    StaysSettled(a, b, vol);
    AnchorsStay(a, b, vol);
    if b.cycles > 0 {
      TwoWaysStay(vol, a, b);
    }
  }

  /** A second way to a directory already entered. */
  lemma CycleKeeps(a: Trail, b: Trail, vol: Volume, s: Spot, steps: seq<nat>)
    requires Settled(a, vol) && Anchored(a, vol) && Grew(a, b) && b.via == a.via && b.finished == a.finished
    requires s in a.via && a.via[s] != steps && Follow(vol.Opened(s.id).value, a.starts[s.id], steps) == Some(s.ino)
    ensures Settled(b, vol) && Anchored(b, vol)
  {
    hide SpotDone, Follow;
    StaysSettled(a, b, vol);
    AnchorsStay(a, b, vol);
    assert AnchoredAt(b, vol, s);
    assert TwoWaysIn(vol, b, s.id, steps, a.via[s]);
  }

  /** No directory of this catalog was entered through these steps. */
  ghost predicate Untrodden(t: Trail, id: Bytes, steps: seq<nat>) {
    forall s :: s in t.via && s.id == id ==> !(steps <= t.via[s])
  }

  /** Only directories of this catalog, through these steps, were entered since. */
  ghost predicate Through(a: Trail, b: Trail, id: Bytes, steps: seq<nat>) {
    forall s :: s in b.via && s !in a.via ==> s.id == id && steps <= b.via[s]
  }

  lemma LaterUntrodden(a: Trail, b: Trail, id: Bytes, steps: seq<nat>, k: nat)
    requires Grew(a, b) && Through(a, b, id, steps + [k])
    ensures forall l :: l > k && Untrodden(a, id, steps + [l]) ==> Untrodden(b, id, steps + [l])
  {
    forall l | l > k && Untrodden(a, id, steps + [l])
      ensures Untrodden(b, id, steps + [l])
    {
      forall s | s in b.via && s.id == id
        ensures !(steps + [l] <= b.via[s])
      {
        if s !in a.via && steps + [l] <= b.via[s] {
          SameTurn(steps, k, l, b.via[s]);
        }
      }
    }
  }

  lemma SameTurn(steps: seq<nat>, k: nat, l: nat, path: seq<nat>)
    requires steps + [k] <= path && steps + [l] <= path
    ensures k == l
  {
    assert (steps + [k])[|steps|] == path[|steps|] == (steps + [l])[|steps|];
  }

  lemma StillThrough(a: Trail, b: Trail, c: Trail, id: Bytes, steps: seq<nat>, k: nat)
    requires Grew(a, b) && Grew(b, c) && Through(a, b, id, steps) && Through(b, c, id, steps + [k])
    ensures Through(a, c, id, steps)
  {
    forall s | s in c.via && s !in a.via
      ensures s.id == id && steps <= c.via[s]
    {
      if s !in b.via {
        assert steps <= steps + [k];
      }
    }
  }

  ghost predicate NewlyEntered(a: Trail, b: Trail, s: Spot, steps: seq<nat>) {
    s in b.via && (b.cycles == 0 ==> b.via[s] == steps)
  }

  /** What was entered and not yet finished is the same. */
  ghost predicate SamePending(a: Trail, b: Trail) {
    forall s :: s in b.via && s !in b.finished <==> s in a.via && s !in a.finished
  }

  // ---------- Inside one directory ----------

  /** Since t, directory s has been entered by these steps, and more perhaps beyond it. */
  ghost predicate Inside(t: Trail, now: Trail, s: Spot, steps: seq<nat>) {
    && Grew(t, now) && s !in t.via && s in now.via && now.via[s] == steps && s !in now.finished
    && Through(t, now, s.id, steps) && Untrodden(t, s.id, steps)
    && forall x :: x in now.via && x !in now.finished <==> x == s || (x in t.via && x !in t.finished)
  }

  lemma PrefixOfLonger(steps: seq<nat>, l: nat, path: seq<nat>)
    requires steps + [l] <= path
    ensures steps <= path
  {
    assert steps == path[..|steps|];
  }

  lemma NothingBelow(t: Trail, now: Trail, s: Spot, steps: seq<nat>)
    requires now.via == t.via[s := steps] && Untrodden(t, s.id, steps)
    ensures forall l: nat :: Untrodden(now, s.id, steps + [l])
  {
    forall l: nat
      ensures Untrodden(now, s.id, steps + [l])
    {
      forall x | x in now.via && x.id == s.id
        ensures !(steps + [l] <= now.via[x])
      {
        if x != s && steps + [l] <= now.via[x] {
          PrefixOfLonger(steps, l, now.via[x]);
        }
      }
    }
  }

  lemma FinishedEntered(t: Trail, vol: Volume)
    requires Settled(t, vol)
    ensures forall s :: s in t.finished ==> s in t.via
  {
    forall s | s in t.finished
      ensures s in t.via
    {
      assert SpotDone(t, vol, s);
    }
  }

  lemma EnterInside(t: Trail, now: Trail, vol: Volume, s: Spot, steps: seq<nat>, path: seq<Bytes>)
    requires s !in t.via && s !in t.at && now == t.(via := t.via[s := steps], at := t.at[s := path])
    requires Settled(t, vol) && Anchored(t, vol)
    requires AnchoredAt(now, vol, s) && Untrodden(t, s.id, steps)
    ensures Settled(now, vol) && Anchored(now, vol) && Inside(t, now, s, steps)
    ensures forall l: nat :: Untrodden(now, s.id, steps + [l])
  {
    hide Settled, Anchored, AnchoredAt, Untrodden;
    FinishedEntered(t, vol);
    EnterKeeps(t, now, vol, s, steps, path);
    NothingBelow(t, now, s, steps);
  }

  /** A call to walk s is over: s has been entered, then or before, and nothing is left pending. */
  ghost predicate Walked(t: Trail, now: Trail, s: Spot, steps: seq<nat>) {
    Grew(t, now) && Through(t, now, s.id, steps) && NewlyEntered(t, now, s, steps) && SamePending(t, now)
  }

  lemma InsideQuiet(t: Trail, a: Trail, b: Trail, s: Spot, steps: seq<nat>)
    requires Inside(t, a, s, steps) && Quiet(a, b)
    ensures Inside(t, b, s, steps)
  {
  }

  /** The directory has been entered by these steps, or found to have been entered by others. */
  ghost predicate Came(t: Trail, x: Spot, steps: seq<nat>, path: seq<Bytes>) {
    x in t.via && (t.via[x] == steps || Returning(x, path) in t.told)
  }

  /** A directory that cannot be read has no entries to visit. */
  lemma NothingToVisit(now: Trail, cat: Reader, s: Spot, steps: seq<nat>, t: Trail)
    requires cat.readdir(s.ino).Err? && Inside(t, now, s, steps) && s in now.at
    ensures LocatorsLooked(now, s, |Locators(cat, s.ino)|)
    ensures EntriesDone(now, cat, s, |Entries(cat, s.ino)|)
  {
  }

  lemma LookedAllStays(a: Trail, b: Trail, s: Spot, n: nat)
    requires Grew(a, b) && LocatorsLooked(a, s, n)
    ensures LocatorsLooked(b, s, n)
  {
  }

  /** One more entry of directory s has been visited. */
  ghost predicate Visited(a: Trail, b: Trail, s: Spot, k: nat) {
    Grew(a, b) && SamePending(a, b) && s in a.via && Through(a, b, s.id, a.via[s] + [k])
  }

  lemma InsideDeeper(t: Trail, a: Trail, b: Trail, s: Spot, steps: seq<nat>, k: nat)
    requires Inside(t, a, s, steps) && Visited(a, b, s, k)
    ensures Inside(t, b, s, steps)
  {
    StillThrough(t, a, b, s.id, steps, k);
  }

  lemma QuietVisited(a: Trail, b: Trail, s: Spot, k: nat)
    requires Quiet(a, b) && s in a.via
    ensures Visited(a, b, s, k)
  {
  }

  /** A finding about the entry itself comes before the rest of the visit. */
  lemma VisitedLater(a: Trail, b: Trail, c: Trail, s: Spot, k: nat)
    requires Quiet(a, b) && Visited(b, c, s, k)
    ensures Visited(a, c, s, k)
  {
  }

  lemma QuietStays(a: Trail, b: Trail, id: Bytes, steps: seq<nat>, k: nat)
    requires Quiet(a, b) && Untrodden(a, id, steps + [k])
    ensures Untrodden(b, id, steps + [k]) && b.via == a.via
    ensures forall x :: x in a.starts ==> x in b.starts && b.starts[x] == a.starts[x]
  {
  }

  lemma QuietBelow(a: Trail, b: Trail, id: Bytes, steps: seq<nat>)
    requires Quiet(a, b) && forall l: nat :: Untrodden(a, id, steps + [l])
    ensures b.via == a.via && forall l: nat :: Untrodden(b, id, steps + [l])
    ensures forall x :: x in a.starts ==> x in b.starts && b.starts[x] == a.starts[x]
  {
    forall l: nat
      ensures Untrodden(b, id, steps + [l])
    {
      assert Untrodden(a, id, steps + [l]);
    }
  }

  lemma LocatorIs(nested: map<Bytes, Bytes>, ns: seq<NestedEntry>, name: Bytes)
    requires ByName(nested, ns)
    ensures Locator(ns, name) == if name in nested then Some(nested[name]) else None
  {
  }

  /** Entry k of s has been looked at. */
  ghost predicate NameLooked(t: Trail, cat: Reader, s: Spot, k: nat) {
    s in t.via && s in t.at && k < |Entries(cat, s.ino)| && Naming(s, k, t.at[s]) in t.told
  }

  lemma CrossDone(a: Trail, b: Trail, cat: Reader, s: Spot, k: nat)
    requires Quiet(a, b) && NameLooked(b, cat, s, k) && Crossing(s, k, b.at[s]) in b.told
    requires cat.stat(Entries(cat, s.ino)[k].inode).Ok? && cat.stat(Entries(cat, s.ino)[k].inode).value.typ == TYPE_DIR
    requires var d := Entries(cat, s.ino)[k];
      && d.inode in b.seen && Locator(Locators(cat, s.ino), d.name).Some?
      && (|Locator(Locators(cat, s.ino), d.name).value| == ID_LEN ==> Locator(Locators(cat, s.ino), d.name).value in b.starts)
    ensures EntryDone(b, cat, s, k)
  {
  }

  /** The call that walked a subdirectory has done what its entry asked. */
  lemma SubdirDone(a: Trail, b: Trail, c: Trail, cat: Reader, s: Spot, k: nat)
    requires Quiet(a, b) && NameLooked(a, cat, s, k)
    requires var d := Entries(cat, s.ino)[k];
      && d.inode in b.seen && Locator(Locators(cat, s.ino), d.name).None? && cat.stat(d.inode).Ok?
      && cat.stat(d.inode).value.typ == TYPE_DIR && Walked(b, c, Spot(s.id, d.inode), a.via[s] + [k])
      && Came(c, Spot(s.id, d.inode), a.via[s] + [k], a.at[s] + [d.name])
    ensures EntryDone(c, cat, s, k) && Visited(a, c, s, k)
    ensures s in c.via && c.via[s] == a.via[s] && s in c.at && c.at[s] == a.at[s]
    ensures forall x :: x in a.starts ==> x in c.starts && c.starts[x] == a.starts[x]
  {
  }

  lemma LostDone(a: Trail, b: Trail, cat: Reader, s: Spot, k: nat)
    requires Quiet(a, b) && NameLooked(b, cat, s, k) && cat.stat(Entries(cat, s.ino)[k].inode).Err?
    ensures EntryDone(b, cat, s, k)
  {
  }

  lemma LeafDone(a: Trail, b: Trail, cat: Reader, s: Spot, k: nat, n: Node)
    requires Quiet(a, b) && NameLooked(b, cat, s, k) && Entries(cat, s.ino)[k].inode in b.seen
    requires n.typ == TYPE_SYMLINK ==> Linking(s, k, b.at[s]) in b.told
    requires cat.stat(Entries(cat, s.ino)[k].inode) == Ok(n) && n.typ != TYPE_DIR
    ensures EntryDone(b, cat, s, k)
  {
  }

  lemma StandingAt(t: Trail, now: Trail, s: Spot, steps: seq<nat>)
    requires Inside(t, now, s, steps)
    ensures s in now.via && now.via[s] == steps
  {
  }

  /** Finished, the directory has been walked. */
  lemma InsideWalked(t: Trail, a: Trail, b: Trail, s: Spot, steps: seq<nat>, path: seq<Bytes>)
    requires Inside(t, a, s, steps) && b == a.(finished := a.finished + {s})
    ensures Walked(t, b, s, steps) && Came(b, s, steps, path)
  {
  }

  lemma GrewItself(a: Trail)
    ensures Grew(a, a)
  {
  }

  lemma NoneDone(now: Trail, cat: Reader, s: Spot, steps: seq<nat>, t: Trail)
    requires Inside(t, now, s, steps)
    ensures EntriesDone(now, cat, s, 0)
  {
  }

  lemma OneMoreDone(a: Trail, b: Trail, cat: Reader, s: Spot, k: nat, t: Trail, steps: seq<nat>)
    requires Inside(t, b, s, steps) && Grew(a, b) && s in a.via && k < |Entries(cat, s.ino)|
    requires EntriesDone(a, cat, s, k) && EntryDone(b, cat, s, k)
    ensures EntriesDone(b, cat, s, k + 1)
  {
    hide EntryDone;
    EntriesStayDone(a, b, cat, s, k);
  }

  ghost predicate ByName(nested: map<Bytes, Bytes>, ns: seq<NestedEntry>) {
    forall name :: Locator(ns, name) == if name in nested then Some(nested[name]) else None
  }

  lemma NoLocators()
    ensures ByName(map[], [])
  {
  }

  lemma OneMoreLocator(nested: map<Bytes, Bytes>, ns: seq<NestedEntry>, i: nat)
    requires i < |ns| && ByName(nested, ns[..i])
    ensures ByName(nested[ns[i].name := ns[i].identity], ns[..i + 1])
  {
    assert ns[..i + 1][..i] == ns[..i];
  }

  lemma Half(ds: seq<Dirent>, n: NestedEntry)
    ensures HasDirent(ds, n) <==> exists k :: 0 <= k < |ds| && ds[k].name == n.name
  {
  }

  lemma FirstTrail(t: Trail, vol: Volume)
    requires t.via == map[] && t.finished == {} && t.cycles == 0
    ensures Settled(t, vol) && Anchored(t, vol)
  {
  }
}
