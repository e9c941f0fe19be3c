/**
  The split policy: which directories of a weight tree become catalog roots.

  `Dir` is the tree as a value; `Weight`, `Picks` and `RootsBelow` say what the policy decides,
  one directory at a time.
 */
module SplitPolicy {

  const TRANSITION_WEIGHT := 200

  datatype Dir = Dir(own: int, pinned: bool, children: seq<Dir>)

  /** Child indices from the top of the tree down to one directory. */
  type Path = seq<nat>

  /** One chosen catalog root, with the weight Split leaves it at. */
  datatype Root = Root(path: Path, weight: int)

  // ---------- One directory: sums over child indices ----------

  ghost function Sum(ws: seq<int>): int {
    if ws == [] then 0 else Sum(ws[..|ws| - 1]) + ws[|ws| - 1]
  }

  /** What peeling child i saves: its weight, less the transition row it leaves behind. */
  ghost function Saving(ws: seq<int>, i: nat): int
    requires i < |ws|
  {
    ws[i] - TRANSITION_WEIGHT
  }

  /** What peeling every child in `s` with index below n saves. */
  ghost function Savings(ws: seq<int>, s: set<nat>, n: nat): int
    requires n <= |ws|
  {
    if n == 0 then 0
    else Savings(ws, s, n - 1) + (if n - 1 in s then Saving(ws, n - 1) else 0)
  }

  lemma {:induction false} SavingsRemove(ws: seq<int>, s: set<nat>, b: nat, n: nat)
    requires n <= |ws| && b in s
    ensures Savings(ws, s, n) == Savings(ws, s - {b}, n) + (if b < n then Saving(ws, b) else 0)
  {
    if n > 0 {
      SavingsRemove(ws, s, b, n - 1);
    }
  }

  lemma {:induction false} SavingsEmpty(ws: seq<int>, n: nat)
    requires n <= |ws|
    ensures Savings(ws, {}, n) == 0
  {
    if n > 0 {
      SavingsEmpty(ws, n - 1);
    }
  }

  lemma {:induction false} SavingsUnion(ws: seq<int>, s: set<nat>, t: set<nat>, n: nat)
    requires n <= |ws| && s !! t
    ensures Savings(ws, s + t, n) == Savings(ws, s, n) + Savings(ws, t, n)
  {
    if n > 0 {
      SavingsUnion(ws, s, t, n - 1);
    }
  }

  /** `big` saves at least as much as `s` when it holds every saving child and no losing one. */
  lemma {:induction false} SavingsDominate(ws: seq<int>, s: set<nat>, big: set<nat>, n: nat)
    requires n <= |ws|
    requires forall i :: i in s && i < n && i !in big ==> Saving(ws, i) <= 0
    requires forall i :: i in big && i < n ==> Saving(ws, i) >= 0
    ensures Savings(ws, s, n) <= Savings(ws, big, n)
  {
    if n > 0 {
      SavingsDominate(ws, s, big, n - 1);
    }
  }

  // ---------- One directory: the greedy peel ----------

  /** Child i is peeled before child j: heavier first, ties to the lower index. */
  ghost predicate Before(ws: seq<int>, i: nat, j: nat)
    requires i < |ws| && j < |ws|
  {
    ws[i] > ws[j] || (ws[i] == ws[j] && i < j)
  }

  ghost predicate Within(s: set<nat>, n: nat) {
    forall i :: i in s ==> i < n
  }

  ghost predicate IsTop(ws: seq<int>, attached: set<nat>, b: nat) {
    b in attached && b < |ws| && forall j :: j in attached && j < |ws| && j != b ==> Before(ws, b, j)
  }

  lemma {:induction false} TopExists(ws: seq<int>, attached: set<nat>) returns (b: nat)
    requires attached != {} && Within(attached, |ws|)
    ensures IsTop(ws, attached, b)
    decreases |attached|
  {
    var x :| x in attached;
    if attached == {x} {
      b := x;
    } else {
      var rest := attached - {x};
      assert attached == rest + {x};
      var y := TopExists(ws, rest);
      b := if Before(ws, x, y) then x else y;
    }
  }

  ghost function Top(ws: seq<int>, attached: set<nat>): (b: nat)
    requires attached != {} && Within(attached, |ws|)
    ensures IsTop(ws, attached, b)
  {
    assert exists b :: IsTop(ws, attached, b) by {
      var b := TopExists(ws, attached);
    }
    var b :| IsTop(ws, attached, b);
    b
  }

  /** The children a directory at weight w peels, in the order it peels them. */
  ghost function Greedy(ws: seq<int>, attached: set<nat>, w: int, smax: int): (picks: seq<nat>)
    requires Within(attached, |ws|)
    ensures forall k :: 0 <= k < |picks| ==> picks[k] in attached && picks[k] < |ws| && Saving(ws, picks[k]) > 0
    decreases |attached|
  {
    if w <= smax || attached == {} then []
    else
      var b := Top(ws, attached);
      if ws[b] <= TRANSITION_WEIGHT then []
      else [b] + Greedy(ws, attached - {b}, w - Saving(ws, b), smax)
  }

  ghost function Elems(s: seq<nat>): set<nat> {
    set x | x in s
  }

  lemma ElemsCons(b: nat, rest: seq<nat>)
    ensures Elems([b] + rest) == {b} + Elems(rest)
  {
    assert forall x :: x in [b] + rest <==> x == b || x in rest;
  }

  /** One unfolding of the peel: the heaviest attached child goes first. */
  lemma GreedyUnfold(ws: seq<int>, attached: set<nat>, w: int, smax: int) returns (b: nat, rest: seq<nat>)
    requires Within(attached, |ws|)
    requires Greedy(ws, attached, w, smax) != []
    ensures w > smax && IsTop(ws, attached, b) && Saving(ws, b) > 0
    ensures rest == Greedy(ws, attached - {b}, w - Saving(ws, b), smax)
    ensures Greedy(ws, attached, w, smax) == [b] + rest
    ensures Elems(Greedy(ws, attached, w, smax)) == {b} + Elems(rest)
    ensures b !in Elems(rest)
  {
    b := Top(ws, attached);
    rest := Greedy(ws, attached - {b}, w - Saving(ws, b), smax);
    ElemsCons(b, rest);
  }

  /** Nothing is peeled only when the directory fits, or no attached child is worth a row. */
  lemma GreedyEmpty(ws: seq<int>, attached: set<nat>, w: int, smax: int)
    requires Within(attached, |ws|)
    requires Greedy(ws, attached, w, smax) == []
    ensures w <= smax || forall i :: i in attached ==> Saving(ws, i) <= 0
    ensures Elems(Greedy(ws, attached, w, smax)) == {}
  {
  }

  /** Every pick is an attached child whose peel saves something. */
  lemma GreedyPicks(ws: seq<int>, attached: set<nat>, w: int, smax: int)
    requires Within(attached, |ws|)
    ensures Elems(Greedy(ws, attached, w, smax)) <= attached
    ensures forall i :: i in Elems(Greedy(ws, attached, w, smax)) ==> i < |ws| && Saving(ws, i) > 0
  {
  }

  lemma {:induction false} GreedyDistinct(ws: seq<int>, attached: set<nat>, w: int, smax: int)
    requires Within(attached, |ws|)
    ensures |Elems(Greedy(ws, attached, w, smax))| == |Greedy(ws, attached, w, smax)|
    decreases |attached|
  {
    hide Greedy;
    if Greedy(ws, attached, w, smax) != [] {
      var b, rest := GreedyUnfold(ws, attached, w, smax);
      GreedyDistinct(ws, attached - {b}, w - Saving(ws, b), smax);
    } else {
      GreedyEmpty(ws, attached, w, smax);
    }
  }

  /** Largest child first, ties to the lowest child index. */
  lemma {:induction false} GreedyOrder(ws: seq<int>, attached: set<nat>, w: int, smax: int, p: nat, q: nat)
    requires Within(attached, |ws|)
    requires p < q < |Greedy(ws, attached, w, smax)|
    ensures var i, j := Greedy(ws, attached, w, smax)[p], Greedy(ws, attached, w, smax)[q];
      ws[i] > ws[j] || (ws[i] == ws[j] && i < j)
    decreases |attached|
  {
    hide Greedy, Saving;
    var b, rest := GreedyUnfold(ws, attached, w, smax);
    if p > 0 {
      GreedyOrder(ws, attached - {b}, w - Saving(ws, b), smax, p - 1, q - 1);
    } else {
      assert rest[q - 1] in attached - {b};
    }
  }

  ghost function Left(ws: seq<int>, picks: set<nat>, w: int): int {
    w - Savings(ws, picks, |ws|)
  }

  /** The peel stops for one of the source's two reasons. */
  lemma {:induction false} GreedyStops(ws: seq<int>, attached: set<nat>, w: int, smax: int)
    requires Within(attached, |ws|)
    ensures var picks := Elems(Greedy(ws, attached, w, smax));
      Left(ws, picks, w) <= smax || forall i :: i in attached && i !in picks ==> ws[i] <= 200
    decreases |attached|
  {
    hide Greedy;
    if Greedy(ws, attached, w, smax) != [] {
      var b, rest := GreedyUnfold(ws, attached, w, smax);
      GreedyStops(ws, attached - {b}, w - Saving(ws, b), smax);
      SavingsRemove(ws, {b} + Elems(rest), b, |ws|);
      assert {b} + Elems(rest) - {b} == Elems(rest);
    } else {
      GreedyEmpty(ws, attached, w, smax);
      SavingsEmpty(ws, |ws|);
    }
  }

  /** No peel set that brings the directory within smax is smaller than the greedy one. */
  lemma {:induction false} GreedyIsFewest(ws: seq<int>, attached: set<nat>, w: int, smax: int, s: set<nat>)
    requires Within(attached, |ws|) && s <= attached
    requires Left(ws, s, w) <= smax
    ensures |Greedy(ws, attached, w, smax)| <= |s|
    decreases |attached|
  {
    hide Greedy;
    if Greedy(ws, attached, w, smax) != [] {
      var b, rest := GreedyUnfold(ws, attached, w, smax);
      if s == {} {
        SavingsEmpty(ws, |ws|);
        assert false;
      }
      var c := if b in s then b else var c :| c in s; c;
      SavingsRemove(ws, s, c, |ws|);
      assert |s - {c}| == |s| - 1;
      GreedyIsFewest(ws, attached - {b}, w - Saving(ws, b), smax, s - {c});
    }
  }

  /** Of all peels of at most as many children none leaves less. */
  lemma {:induction false} GreedyIsBestOfSize(ws: seq<int>, attached: set<nat>, w: int, smax: int, s: set<nat>)
    requires Within(attached, |ws|) && s <= attached && |s| <= |Greedy(ws, attached, w, smax)|
    ensures Left(ws, Elems(Greedy(ws, attached, w, smax)), w) <= Left(ws, s, w)
    decreases |attached|
  {
    hide Greedy;
    if Greedy(ws, attached, w, smax) == [] {
      GreedyEmpty(ws, attached, w, smax);
      assert s == {};
    } else {
      var b, rest := GreedyUnfold(ws, attached, w, smax);
      SavingsRemove(ws, {b} + Elems(rest), b, |ws|);
      assert {b} + Elems(rest) - {b} == Elems(rest);
      if s == {} {
        SavingsEmpty(ws, |ws|);
        GreedyIsBestOfSize(ws, attached - {b}, w - Saving(ws, b), smax, {});
      } else {
        var c := if b in s then b else var c :| c in s; c;
        SavingsRemove(ws, s, c, |ws|);
        assert |s - {c}| == |s| - 1;
        GreedyIsBestOfSize(ws, attached - {b}, w - Saving(ws, b), smax, s - {c});
      }
    }
  }

  /** A directory the greedy peel leaves over smax is as light as any peel set could make it. */
  lemma GreedyIsLightest(ws: seq<int>, attached: set<nat>, w: int, smax: int, s: set<nat>)
    requires Within(attached, |ws|) && s <= attached
    requires Left(ws, Elems(Greedy(ws, attached, w, smax)), w) > smax
    ensures Left(ws, Elems(Greedy(ws, attached, w, smax)), w) <= Left(ws, s, w)
  {
    GreedyStops(ws, attached, w, smax);
    SavingsDominate(ws, s, Elems(Greedy(ws, attached, w, smax)), |ws|);
  }

  /** Put any one pick back and the directory is over smax again. */
  lemma {:induction false} EveryPickIsNeeded(ws: seq<int>, attached: set<nat>, w: int, smax: int, b: nat)
    requires Within(attached, |ws|)
    requires b in Elems(Greedy(ws, attached, w, smax)) && b < |ws|
    ensures Left(ws, Elems(Greedy(ws, attached, w, smax)), w) + Saving(ws, b) > smax
    decreases |attached|
  {
    hide Greedy;
    var top, rest := GreedyUnfold(ws, attached, w, smax);
    SavingsRemove(ws, {top} + Elems(rest), top, |ws|);
    assert {top} + Elems(rest) - {top} == Elems(rest);
    if rest == [] {
      assert Elems(rest) == {};
      SavingsEmpty(ws, |ws|);
    } else {
      var c := if b in Elems(rest) then b else rest[0];
      assert Before(ws, b, c) || b == c;
      EveryPickIsNeeded(ws, attached - {top}, w - Saving(ws, top), smax, c);
    }
  }

  /** A pick outweighs every attached child that is not picked. */
  lemma {:induction false} NonPicksComeLater(ws: seq<int>, attached: set<nat>, w: int, smax: int, b: nat, j: nat)
    requires Within(attached, |ws|)
    requires b in Elems(Greedy(ws, attached, w, smax)) && b < |ws|
    requires j in attached && j !in Elems(Greedy(ws, attached, w, smax)) && j < |ws|
    ensures Before(ws, b, j)
    decreases |attached|
  {
    hide Greedy;
    var top, rest := GreedyUnfold(ws, attached, w, smax);
    if b != top {
      NonPicksComeLater(ws, attached - {top}, w - Saving(ws, top), smax, b, j);
    }
  }

  /** With some of the picks gone, the directory is still over smax and its heaviest child is a pick. */
  lemma NextAfterPrepeel(ws: seq<int>, attached: set<nat>, w: int, smax: int, gone: set<nat>) returns (b: nat)
    requires Within(attached, |ws|)
    requires gone < Elems(Greedy(ws, attached, w, smax))
    ensures b in Elems(Greedy(ws, attached, w, smax)) - gone
    ensures IsTop(ws, attached - gone, b) && Saving(ws, b) > 0
    ensures Left(ws, gone, w) > smax
  {
    hide Greedy;
    var picks := Elems(Greedy(ws, attached, w, smax));
    var missing :| missing in picks && missing !in gone;
    assert missing in picks - gone;
    b := TopExists(ws, picks - gone);
    EveryPickIsNeeded(ws, attached, w, smax, b);
    SavingsUnion(ws, gone, picks - gone, |ws|);
    assert gone + (picks - gone) == picks;
    SavingsRemove(ws, picks - gone, b, |ws|);
    SavingsEmpty(ws, |ws|);
    SavingsDominate(ws, {}, picks - gone - {b}, |ws|);
    forall j | j in attached - gone && j < |ws| && j != b
      ensures Before(ws, b, j)
    {
      if j !in picks {
        NonPicksComeLater(ws, attached, w, smax, b, j);
      }
    }
  }

  lemma NothingLeft(ws: seq<int>, attached: set<nat>, w: int, smax: int)
    requires Within(attached, |ws|)
    requires w <= smax || forall i :: i in attached ==> Saving(ws, i) <= 0
    ensures Elems(Greedy(ws, attached, w, smax)) == {}
  {
    assert Greedy(ws, attached, w, smax) == [];
  }

  lemma TopIsPicked(ws: seq<int>, attached: set<nat>, w: int, smax: int, b: nat)
    requires Within(attached, |ws|)
    requires w > smax && IsTop(ws, attached, b) && Saving(ws, b) > 0
    ensures Greedy(ws, attached, w, smax) != []
  {
    assert Top(ws, attached) == b;
  }

  /** Peeling some of the picks beforehand leaves exactly the other picks to peel. */
  lemma {:induction false} GreedyAfterPrepeel(ws: seq<int>, attached: set<nat>, w: int, smax: int, gone: set<nat>)
    requires Within(attached, |ws|)
    requires gone <= Elems(Greedy(ws, attached, w, smax))
    ensures Elems(Greedy(ws, attached - gone, Left(ws, gone, w), smax))
         == Elems(Greedy(ws, attached, w, smax)) - gone
    decreases |attached - gone|
  {
    hide Greedy;
    if gone == Elems(Greedy(ws, attached, w, smax)) {
      GreedyStops(ws, attached, w, smax);
      NothingLeft(ws, attached - gone, Left(ws, gone, w), smax);
    } else {
      var b := NextAfterPrepeel(ws, attached, w, smax, gone);
      TopIsPicked(ws, attached - gone, Left(ws, gone, w), smax, b);
      var top, rest := GreedyUnfold(ws, attached - gone, Left(ws, gone, w), smax);
      assert top == b;
      assert rest == Greedy(ws, attached - (gone + {b}), Left(ws, gone + {b}, w), smax) by {
        SavingsRemove(ws, gone + {b}, b, |ws|);
        assert gone + {b} - {b} == gone;
        assert attached - gone - {b} == attached - (gone + {b});
      }
      assert attached - (gone + {b}) < attached - gone;
      GreedyAfterPrepeel(ws, attached, w, smax, gone + {b});
    }
  }

  // ---------- The tree ----------

  ghost function Weights(ds: seq<Dir>, smax: int): (ws: seq<int>)
    ensures |ws| == |ds|
    ensures forall i :: 0 <= i < |ds| ==> ws[i] == Weight(ds[i], smax)
    decreases ds
  {
    if ds == [] then [] else Weights(ds[..|ds| - 1], smax) + [Weight(ds[|ds| - 1], smax)]
  }

  ghost function Pinned(ds: seq<Dir>): (s: set<nat>)
    ensures Within(s, |ds|)
  {
    set i: nat | i < |ds| && ds[i].pinned
  }

  ghost function Unpinned(ds: seq<Dir>): (s: set<nat>)
    ensures Within(s, |ds|)
  {
    set i: nat | i < |ds| && !ds[i].pinned
  }

  /** A directory's weight once its pinned children are rows and the others still attached. */
  ghost function StartWeight(d: Dir, smax: int): int
    decreases d, 1
  {
    var ws := Weights(d.children, smax);
    d.own + Sum(ws) - Savings(ws, Pinned(d.children), |ws|)
  }

  ghost function Picks(d: Dir, smax: int): seq<nat>
    decreases d, 2
  {
    Greedy(Weights(d.children, smax), Unpinned(d.children), StartWeight(d, smax), smax)
  }

  ghost function Weight(d: Dir, smax: int): int
    decreases d, 3
  {
    if d.pinned then d.own
    else Left(Weights(d.children, smax), Elems(Picks(d, smax)), StartWeight(d, smax))
  }

  lemma PicksAreUnpinned(d: Dir, smax: int)
    ensures Elems(Picks(d, smax)) <= Unpinned(d.children)
    ensures |Elems(Picks(d, smax))| == |Picks(d, smax)|
  {
    GreedyDistinct(Weights(d.children, smax), Unpinned(d.children), StartWeight(d, smax), smax);
    GreedyPicks(Weights(d.children, smax), Unpinned(d.children), StartWeight(d, smax), smax);
  }

  // ---------- Roots, in the order they are found ----------

  ghost function Under(i: nat, roots: seq<Root>): (r: seq<Root>)
    ensures |r| == |roots|
    ensures forall k :: 0 <= k < |roots| ==> r[k] == Root([i] + roots[k].path, roots[k].weight)
  {
    seq(|roots|, k requires 0 <= k < |roots| => Root([i] + roots[k].path, roots[k].weight))
  }

  ghost function RootsInChildren(ds: seq<Dir>, smax: int): seq<Root>
    decreases ds
  {
    if ds == [] then []
    else RootsInChildren(ds[..|ds| - 1], smax) + Under(|ds| - 1, RootsBelow(ds[|ds| - 1], smax))
  }

  /** The pinned ones among the first n children, in child order. */
  ghost function PinnedInOrder(ds: seq<Dir>, n: nat): (pins: seq<nat>)
    requires n <= |ds|
    ensures forall k :: 0 <= k < |pins| ==> pins[k] < n && ds[pins[k]].pinned
  {
    if n == 0 then [] else PinnedInOrder(ds, n - 1) + (if ds[n - 1].pinned then [n - 1] else [])
  }

  ghost function AsRoots(ws: seq<int>, indices: seq<nat>): (r: seq<Root>)
    requires forall k :: 0 <= k < |indices| ==> indices[k] < |ws|
    ensures |r| == |indices|
    ensures forall k :: 0 <= k < |indices| ==> r[k] == Root([indices[k]], ws[indices[k]])
  {
    seq(|indices|, k requires 0 <= k < |indices| => Root([indices[k]], ws[indices[k]]))
  }

  /** The children d peels, pinned ones first. */
  ghost function Peeled(d: Dir, smax: int): (indices: seq<nat>)
    ensures forall k :: 0 <= k < |indices| ==> indices[k] < |d.children|
    decreases d, 3
  {
    PinnedInOrder(d.children, |d.children|) + Picks(d, smax)
  }

  /** Every catalog root strictly below d, in discovery order. */
  ghost function RootsBelow(d: Dir, smax: int): seq<Root>
    decreases d, 4
  {
    if d.pinned then []
    else RootsInChildren(d.children, smax) + AsRoots(Weights(d.children, smax), Peeled(d, smax))
  }

  /** What Split returns: the tree root is always a catalog root, and comes last. */
  ghost function Roots(d: Dir, smax: int): seq<Root> {
    RootsBelow(d, smax) + [Root([], Weight(d, smax))]
  }

  // ---------- What the walk decides, read off the tree ----------

  ghost function PeeledSet(d: Dir, smax: int): (s: set<nat>)
    ensures Within(s, |d.children|)
  {
    PicksAreUnpinned(d, smax);
    Pinned(d.children) + Elems(Picks(d, smax))
  }

  /** The weight Split records: own rows, attached subtrees, and one row per peeled child. */
  lemma WeightByPeeledSet(d: Dir, smax: int)
    requires !d.pinned
    ensures var ws := Weights(d.children, smax);
      Weight(d, smax) == d.own + Sum(ws) - Savings(ws, PeeledSet(d, smax), |ws|)
  {
    PicksAreUnpinned(d, smax);
    var ws := Weights(d.children, smax);
    SavingsUnion(ws, Pinned(d.children), Elems(Picks(d, smax)), |ws|);
  }

  /** p leads to a catalog root strictly below d. */
  ghost predicate IsRootBelow(d: Dir, smax: int, p: Path)
    decreases d
  {
    && !d.pinned && p != [] && p[0] < |d.children|
    && (if |p| == 1 then p[0] in PeeledSet(d, smax) else IsRootBelow(d.children[p[0]], smax, p[1..]))
  }

  ghost function At(d: Dir, p: Path): Dir
    decreases |p|
  {
    if p == [] || p[0] >= |d.children| then d else At(d.children[p[0]], p[1..])
  }

  // ---------- Reference weights: any choice of roots whatever ----------

  /** What d weighs when the roots are `chosen` (full paths), `here` being the path of d. */
  ghost function WeightUnder(d: Dir, chosen: set<Path>, here: Path): int
    decreases d, 1
  {
    if d.pinned then d.own else d.own + AttachedUnder(d.children, chosen, here)
  }

  ghost function AttachedUnder(ds: seq<Dir>, chosen: set<Path>, here: Path): int
    decreases ds, 0
  {
    if ds == [] then 0
    else
      var i := |ds| - 1;
      AttachedUnder(ds[..i], chosen, here)
      + (if here + [i] in chosen then 200 else WeightUnder(ds[i], chosen, here + [i]))
  }

  /** `chosen` holds exactly the roots Split finds strictly below d. */
  ghost predicate ChosenBySplit(d: Dir, smax: int, chosen: set<Path>, here: Path) {
    forall p: Path :: p != [] ==> (here + p in chosen <==> IsRootBelow(d, smax, p))
  }

  lemma ChosenInChild(d: Dir, smax: int, chosen: set<Path>, here: Path, i: nat)
    requires !d.pinned && i < |d.children| && ChosenBySplit(d, smax, chosen, here)
    ensures ChosenBySplit(d.children[i], smax, chosen, here + [i])
    ensures here + [i] in chosen <==> i in PeeledSet(d, smax)
  {
    forall p: Path | p != []
      ensures here + [i] + p in chosen <==> IsRootBelow(d.children[i], smax, p)
    {
      assert here + [i] + p == here + ([i] + p);
      assert ([i] + p)[1..] == p;
    }
    assert |[i]| == 1;
  }

  /** The recorded Weight is the reference weight under the roots Split chose. */
  lemma {:induction false} WeightIsReference(d: Dir, smax: int, chosen: set<Path>, here: Path)
    requires ChosenBySplit(d, smax, chosen, here)
    ensures WeightUnder(d, chosen, here) == Weight(d, smax)
    decreases d, 1
  {
    if !d.pinned {
      AttachedIsReference(d, smax, chosen, here, |d.children|);
      assert d.children[..|d.children|] == d.children;
      var ws := Weights(d.children, smax);
      assert ws[..|ws|] == ws;
      WeightByPeeledSet(d, smax);
    }
  }

  lemma {:induction false} AttachedIsReference(d: Dir, smax: int, chosen: set<Path>, here: Path, n: nat)
    requires !d.pinned && n <= |d.children| && ChosenBySplit(d, smax, chosen, here)
    ensures var ws := Weights(d.children, smax);
      AttachedUnder(d.children[..n], chosen, here) == Sum(ws[..n]) - Savings(ws, PeeledSet(d, smax), n)
    decreases d, 0, n
  {
    if n > 0 {
      hide AttachedUnder, Sum;
      var ws := Weights(d.children, smax);
      AttachedIsReference(d, smax, chosen, here, n - 1);
      AttachedStep(d.children, chosen, here, n);
      SumStep(ws, n);
      ChosenInChild(d, smax, chosen, here, n - 1);
      WeightIsReference(d.children[n - 1], smax, chosen, here + [n - 1]);
    }
  }

  // ---------- No choice of roots anywhere in the tree does better ----------

  ghost predicate NonNegative(d: Dir) {
    d.own >= 0 && forall i :: 0 <= i < |d.children| ==> NonNegative(d.children[i])
  }

  /** Pinned directories are roots by the caller's decision, so every choice includes them. */
  ghost predicate RespectsPins(d: Dir, chosen: set<Path>, here: Path) {
    d.pinned || forall i: nat :: i < |d.children| ==>
      && (d.children[i].pinned ==> here + [i] in chosen)
      && RespectsPins(d.children[i], chosen, here + [i])
  }

  ghost function Min(a: int, b: int): int {
    if a <= b then a else b
  }

  /** The least the first n children can contribute: a row each, or less when they weigh less. */
  ghost function LeastAttached(ds: seq<Dir>, smax: int): int {
    if ds == [] then 0
    else
      var last := ds[|ds| - 1];
      LeastAttached(ds[..|ds| - 1], smax)
      + (if last.pinned then TRANSITION_WEIGHT else Min(TRANSITION_WEIGHT, Weight(last, smax)))
  }

  lemma {:induction false} NoChoiceBeatsARow(d: Dir, smax: int, chosen: set<Path>, here: Path)
    requires NonNegative(d) && RespectsPins(d, chosen, here)
    ensures WeightUnder(d, chosen, here) >= Min(TRANSITION_WEIGHT, Weight(d, smax))
    ensures WeightUnder(d, chosen, here) >= 0
    decreases d, 2
  {
    if !d.pinned {
      AttachedAtLeast(d.children, smax, chosen, here);
      if WeightUnder(d, chosen, here) < TRANSITION_WEIGHT {
        LightChildrenStay(d, smax, chosen, here);
      }
    }
  }

  lemma {:induction false} AttachedAtLeast(ds: seq<Dir>, smax: int, chosen: set<Path>, here: Path)
    requires forall i: nat :: i < |ds| ==> NonNegative(ds[i]) && RespectsPins(ds[i], chosen, here + [i])
    requires forall i: nat :: i < |ds| && ds[i].pinned ==> here + [i] in chosen
    ensures AttachedUnder(ds, chosen, here) >= LeastAttached(ds, smax)
    ensures AttachedUnder(ds, chosen, here) >= 0
    decreases ds, 1
  {
    hide Weight, WeightUnder, NonNegative, RespectsPins;
    if ds != [] {
      var i := |ds| - 1;
      AttachedAtLeast(ds[..i], smax, chosen, here);
      NoChoiceBeatsARow(ds[i], smax, chosen, here + [i]);
    }
  }

  /** A directory lighter than a row under some choice has no pinned child and only light ones. */
  lemma {:induction false} LightChildrenStay(d: Dir, smax: int, chosen: set<Path>, here: Path)
    requires !d.pinned && NonNegative(d) && RespectsPins(d, chosen, here)
    requires WeightUnder(d, chosen, here) < TRANSITION_WEIGHT
    ensures Weight(d, smax) <= WeightUnder(d, chosen, here)
    decreases d, 1
  {
    var ws := Weights(d.children, smax);
    assert d.children[..|d.children|] == d.children;
    AttachedLight(d, smax, chosen, here, |d.children|);
    assert Pinned(d.children) == {};
    SavingsEmpty(ws, |ws|);
    SavingsEmpty(ws, |ws|);
    LightNeverPeeled(d, smax);
    assert ws[..|ws|] == ws;
  }

  lemma LightNeverPeeled(d: Dir, smax: int)
    requires forall i :: 0 <= i < |d.children| ==> Weight(d.children[i], smax) <= TRANSITION_WEIGHT
    ensures Elems(Picks(d, smax)) == {}
  {
    NothingLeft(Weights(d.children, smax), Unpinned(d.children), StartWeight(d, smax), smax);
  }

  lemma AttachedStep(ds: seq<Dir>, chosen: set<Path>, here: Path, n: nat)
    requires 0 < n <= |ds|
    ensures AttachedUnder(ds[..n], chosen, here) == AttachedUnder(ds[..n - 1], chosen, here)
              + (if here + [n - 1] in chosen then TRANSITION_WEIGHT else WeightUnder(ds[n - 1], chosen, here + [n - 1]))
  {
    assert ds[..n][..n - 1] == ds[..n - 1];
  }

  lemma NoneAttached(ws: seq<int>, ds: seq<Dir>, chosen: set<Path>, here: Path)
    ensures Sum(ws[..0]) == 0 && AttachedUnder(ds[..0], chosen, here) == 0
  {
  }

  lemma SumStep(ws: seq<int>, n: nat)
    requires 0 < n <= |ws|
    ensures Sum(ws[..n]) == Sum(ws[..n - 1]) + ws[n - 1]
  {
    assert ws[..n][..n - 1] == ws[..n - 1];
  }

  lemma ChildrenToo(d: Dir, chosen: set<Path>, here: Path)
    requires !d.pinned && NonNegative(d) && RespectsPins(d, chosen, here)
    ensures forall i: nat :: i < |d.children| ==>
      NonNegative(d.children[i]) && RespectsPins(d.children[i], chosen, here + [i])
    ensures forall i: nat :: i < |d.children| && d.children[i].pinned ==> here + [i] in chosen
  {
  }

  lemma {:induction false} AttachedLight(d: Dir, smax: int, chosen: set<Path>, here: Path, n: nat)
    requires n <= |d.children| && !d.pinned && NonNegative(d) && RespectsPins(d, chosen, here)
    requires AttachedUnder(d.children[..n], chosen, here) < TRANSITION_WEIGHT
    ensures forall i :: 0 <= i < n ==> !d.children[i].pinned && Weight(d.children[i], smax) <= TRANSITION_WEIGHT
    ensures Sum(Weights(d.children, smax)[..n]) <= AttachedUnder(d.children[..n], chosen, here)
    ensures 0 <= AttachedUnder(d.children[..n], chosen, here)
    decreases d, 0, n
  {
    hide Weight, WeightUnder, Weights, AttachedUnder, Sum, NonNegative, RespectsPins, LeastAttached;
    if n > 0 {
      var ws := Weights(d.children, smax);
      AttachedStep(d.children, chosen, here, n);
      SumStep(ws, n);
      ChildrenToo(d, chosen, here);
      AttachedAtLeast(d.children[..n - 1], smax, chosen, here);
      NoChoiceBeatsARow(d.children[n - 1], smax, chosen, here + [n - 1]);
      AttachedLight(d, smax, chosen, here, n - 1);
    } else {
      NoneAttached(Weights(d.children, smax), d.children, chosen, here);
    }
  }

  /** An oversized directory peels every child worth a row, so each costs it the least it can. */
  lemma {:induction false} OversizedPeelsAll(d: Dir, smax: int, n: nat)
    requires !d.pinned && Weight(d, smax) > smax && n <= |d.children|
    ensures var ws := Weights(d.children, smax);
      Sum(ws[..n]) - Savings(ws, PeeledSet(d, smax), n) == LeastAttached(d.children[..n], smax)
  {
    hide PeeledSet, Weight, Weights;
    if n > 0 {
      var ws := Weights(d.children, smax);
      OversizedPeelsAll(d, smax, n - 1);
      assert d.children[..n][..n - 1] == d.children[..n - 1];
      assert ws[..n][..n - 1] == ws[..n - 1];
      OversizedPeels(d, smax, n - 1);
    }
  }

  /** Which children an oversized directory gives up: the pinned ones and those worth a row. */
  lemma OversizedPeels(d: Dir, smax: int, i: nat)
    requires !d.pinned && Weight(d, smax) > smax && i < |d.children|
    ensures i in PeeledSet(d, smax) <==> d.children[i].pinned || Weight(d.children[i], smax) > TRANSITION_WEIGHT
  {
    hide Greedy;
    var ws := Weights(d.children, smax);
    GreedyStops(ws, Unpinned(d.children), StartWeight(d, smax), smax);
    GreedyPicks(ws, Unpinned(d.children), StartWeight(d, smax), smax);
  }

  /**
    A directory Split leaves over smax is as light as any choice of roots in its whole subtree
    could make it: the oversized catalog is forced by the tree, not by the greed.
   */
  lemma OversizedIsMinimal(d: Dir, smax: int, chosen: set<Path>, here: Path)
    requires NonNegative(d) && RespectsPins(d, chosen, here)
    requires Weight(d, smax) > smax
    ensures WeightUnder(d, chosen, here) >= Weight(d, smax)
  {
    if !d.pinned {
      var ws := Weights(d.children, smax);
      OversizedPeelsAll(d, smax, |d.children|);
      WeightByPeeledSet(d, smax);
      assert d.children[..|d.children|] == d.children && ws[..|ws|] == ws;
      AttachedAtLeast(d.children, smax, chosen, here);
    }
  }

  // ---------- Conservation ----------

  ghost function TotalOwn(d: Dir): int
    decreases d, 1
  {
    if d.pinned then d.own else d.own + TotalOwnAll(d.children)
  }

  ghost function TotalOwnAll(ds: seq<Dir>): int
    decreases ds, 0
  {
    if ds == [] then 0 else TotalOwnAll(ds[..|ds| - 1]) + TotalOwn(ds[|ds| - 1])
  }

  ghost function TotalWeight(roots: seq<Root>): int {
    if roots == [] then 0 else TotalWeight(roots[..|roots| - 1]) + roots[|roots| - 1].weight
  }

  lemma {:induction false} TotalWeightAppend(a: seq<Root>, b: seq<Root>)
    ensures TotalWeight(a + b) == TotalWeight(a) + TotalWeight(b)
  {
    if b == [] {
      assert a + b == a;
    } else {
      assert (a + b)[..|a + b| - 1] == a + b[..|b| - 1];
      TotalWeightAppend(a, b[..|b| - 1]);
    }
  }

  lemma {:induction false} TotalWeightUnder(i: nat, roots: seq<Root>)
    ensures TotalWeight(Under(i, roots)) == TotalWeight(roots)
  {
    if roots != [] {
      assert Under(i, roots)[..|roots| - 1] == Under(i, roots[..|roots| - 1]);
      TotalWeightUnder(i, roots[..|roots| - 1]);
    }
  }

  lemma {:induction false} TotalWeightAsRoots(ws: seq<int>, indices: seq<nat>)
    requires forall k :: 0 <= k < |indices| ==> indices[k] < |ws|
    requires forall j, k :: 0 <= j < k < |indices| ==> indices[j] != indices[k]
    ensures TotalWeight(AsRoots(ws, indices)) == Savings(ws, Elems(indices), |ws|) + TRANSITION_WEIGHT * |indices|
  {
    if indices == [] {
      SavingsEmpty(ws, |ws|);
      assert Elems(indices) == {};
    } else {
      var k := |indices| - 1;
      assert AsRoots(ws, indices)[..k] == AsRoots(ws, indices[..k]);
      TotalWeightAsRoots(ws, indices[..k]);
      SavingsRemove(ws, Elems(indices), indices[k], |ws|);
      assert Elems(indices) - {indices[k]} == Elems(indices[..k]) by {
        assert forall x :: x in indices <==> x in indices[..k] || x == indices[k];
      }
    }
  }

  lemma PeeledElems(d: Dir, smax: int)
    ensures Elems(Peeled(d, smax)) == PeeledSet(d, smax)
  {
    hide Picks, PinnedInOrder;
    var pins := PinnedInOrder(d.children, |d.children|);
    var picks := Picks(d, smax);
    PinnedInOrderElems(d.children, |d.children|);
    forall x
      ensures x in pins + picks <==> x in pins || x in picks
    {
    }
  }

  lemma PeeledDistinct(d: Dir, smax: int)
    ensures forall j, k :: 0 <= j < k < |Peeled(d, smax)| ==> Peeled(d, smax)[j] != Peeled(d, smax)[k]
  {
    hide PinnedInOrder, Greedy, Weights, StartWeight;
    var pins := PinnedInOrder(d.children, |d.children|);
    var picks := Picks(d, smax);
    forall j, k | 0 <= j < k < |pins + picks|
      ensures (pins + picks)[j] != (pins + picks)[k]
    {
      if k < |pins| {
        PinnedAscend(d.children, |d.children|, j, k);
      } else if j >= |pins| {
        GreedyOrder(Weights(d.children, smax), Unpinned(d.children), StartWeight(d, smax), smax, j - |pins|, k - |pins|);
      } else {
        PicksAreUnpinned(d, smax);
        assert picks[k - |pins|] in Elems(picks);
      }
    }
  }

  lemma {:induction false} PinnedInOrderElems(ds: seq<Dir>, n: nat)
    requires n <= |ds|
    ensures Elems(PinnedInOrder(ds, n)) == set i: nat | i < n && ds[i].pinned
  {
    if n > 0 {
      PinnedInOrderElems(ds, n - 1);
      var before := PinnedInOrder(ds, n - 1);
      assert forall x :: x in before + [n - 1] <==> x in before || x == n - 1;
      assert forall x :: x in Elems(before) <==> x in before;
    }
  }

  lemma {:induction false} PinnedAscend(ds: seq<Dir>, n: nat, j: nat, k: nat)
    requires n <= |ds| && j < k < |PinnedInOrder(ds, n)|
    ensures PinnedInOrder(ds, n)[j] < PinnedInOrder(ds, n)[k]
  {
    if k < |PinnedInOrder(ds, n - 1)| {
      PinnedAscend(ds, n - 1, j, k);
    }
  }

  lemma {:induction false} ConservationBelow(d: Dir, smax: int)
    ensures Weight(d, smax) + TotalWeight(RootsBelow(d, smax))
         == TotalOwn(d) + TRANSITION_WEIGHT * |RootsBelow(d, smax)|
    decreases d, 1
  {
    if !d.pinned {
      var ws := Weights(d.children, smax);
      ConservationInChildren(d.children, smax);
      PeeledElems(d, smax);
      PeeledDistinct(d, smax);
      TotalWeightAsRoots(ws, Peeled(d, smax));
      TotalWeightAppend(RootsInChildren(d.children, smax), AsRoots(ws, Peeled(d, smax)));
      WeightByPeeledSet(d, smax);
    }
  }

  lemma {:induction false} ConservationInChildren(ds: seq<Dir>, smax: int)
    ensures Sum(Weights(ds, smax)) + TotalWeight(RootsInChildren(ds, smax))
         == TotalOwnAll(ds) + TRANSITION_WEIGHT * |RootsInChildren(ds, smax)|
    decreases ds, 0
  {
    if ds != [] {
      var i := |ds| - 1;
      ConservationInChildren(ds[..i], smax);
      ConservationBelow(ds[i], smax);
      TotalWeightUnder(i, RootsBelow(ds[i], smax));
      TotalWeightAppend(RootsInChildren(ds[..i], smax), Under(i, RootsBelow(ds[i], smax)));
    }
  }

  /** Splitting neither loses nor invents weight: it adds one transition row per peeled root. */
  lemma Conservation(d: Dir, smax: int)
    ensures TotalWeight(Roots(d, smax)) == TotalOwn(d) + 200 * (|Roots(d, smax)| - 1)
  {
    ConservationBelow(d, smax);
    TotalWeightAppend(RootsBelow(d, smax), [Root([], Weight(d, smax))]);
    assert [Root([], Weight(d, smax))][..0] == [];
  }

  // ---------- The root list as a set ----------

  /** Every listed root is where IsRootBelow says, with the weight recorded there. */
  lemma {:induction false} RootsBelowSound(d: Dir, smax: int, k: nat)
    requires k < |RootsBelow(d, smax)|
    ensures var r := RootsBelow(d, smax)[k];
      IsRootBelow(d, smax, r.path) && r.weight == Weight(At(d, r.path), smax)
    decreases d, 1
  {
    var inner := RootsInChildren(d.children, smax);
    if k < |inner| {
      var i := RootsInChildrenSound(d.children, smax, k);
    } else {
      PeeledElems(d, smax);
      PeeledDistinct(d, smax);
      var i := Peeled(d, smax)[k - |inner|];
      assert i in Elems(Peeled(d, smax));
      assert At(d, [i]) == d.children[i];
    }
  }

  lemma {:induction false} RootsInChildrenSound(ds: seq<Dir>, smax: int, k: nat) returns (i: nat)
    requires k < |RootsInChildren(ds, smax)|
    ensures var r := RootsInChildren(ds, smax)[k];
      && i < |ds| && |r.path| > 1 && r.path[0] == i
      && IsRootBelow(ds[i], smax, r.path[1..])
      && r.weight == Weight(At(ds[i], r.path[1..]), smax)
    decreases ds, 0
  {
    var last := |ds| - 1;
    var before := RootsInChildren(ds[..last], smax);
    if k < |before| {
      i := RootsInChildrenSound(ds[..last], smax, k);
    } else {
      i := last;
      RootsBelowSound(ds[last], smax, k - |before|);
      var inner := RootsBelow(ds[last], smax)[k - |before|];
      assert ([last] + inner.path)[1..] == inner.path;
    }
  }

  /** Every place IsRootBelow names is listed. */
  lemma {:induction false} RootsBelowComplete(d: Dir, smax: int, p: Path) returns (k: nat)
    requires IsRootBelow(d, smax, p)
    ensures k < |RootsBelow(d, smax)| && RootsBelow(d, smax)[k].path == p
    decreases d, 1
  {
    if |p| == 1 {
      PeeledElems(d, smax);
      PeeledDistinct(d, smax);
      assert p[0] in Elems(Peeled(d, smax));
      var j :| 0 <= j < |Peeled(d, smax)| && Peeled(d, smax)[j] == p[0];
      k := |RootsInChildren(d.children, smax)| + j;
    } else {
      assert p == [p[0]] + p[1..];
      k := RootsInChildrenComplete(d.children, smax, p);
    }
  }

  lemma {:induction false} RootsInChildrenComplete(ds: seq<Dir>, smax: int, p: Path) returns (k: nat)
    requires |p| > 1 && p[0] < |ds| && IsRootBelow(ds[p[0]], smax, p[1..])
    ensures k < |RootsInChildren(ds, smax)| && RootsInChildren(ds, smax)[k].path == p
    decreases ds, 0
  {
    var last := |ds| - 1;
    if p[0] < last {
      k := RootsInChildrenComplete(ds[..last], smax, p);
    } else {
      var j := RootsBelowComplete(ds[last], smax, p[1..]);
      k := |RootsInChildren(ds[..last], smax)| + j;
      assert p == [last] + p[1..];
    }
  }

  // ---------- Standing in for subtrees that were not walked ----------

  /**
    s is t with some of the children Split would peel, anywhere in t, replaced by pinned stubs
    that carry nothing but the weight Split recorded for them.
   */
  ghost predicate Stubbed(t: Dir, s: Dir, smax: int)
    decreases t
  {
    t == s || (
      && !t.pinned && !s.pinned && t.own == s.own && |t.children| == |s.children|
      && forall i: nat :: i < |t.children| ==>
        || Stubbed(t.children[i], s.children[i], smax)
        || (i in PeeledSet(t, smax) && IsStubFor(t.children[i], s.children[i], smax)))
  }

  ghost predicate IsStubFor(t: Dir, s: Dir, smax: int) {
    s.pinned && s.own == Weight(t, smax)
  }

  /** p runs through a stub into the subtree the stub stands in for. */
  ghost predicate InsideStub(t: Dir, s: Dir, p: Path)
    decreases |p|
  {
    |p| > 0 && (
      || (s.pinned && !t.pinned)
      || (p[0] < |t.children| && p[0] < |s.children| && InsideStub(t.children[p[0]], s.children[p[0]], p[1..])))
  }

  lemma {:induction false} StubKeepsWeight(t: Dir, s: Dir, smax: int)
    requires Stubbed(t, s, smax)
    ensures Weight(s, smax) == Weight(t, smax)
    ensures s.pinned == t.pinned
    ensures !t.pinned ==> PeeledSet(s, smax) == PeeledSet(t, smax)
    decreases t
  {
    if t != s {
      forall i: nat | i < |t.children|
        ensures Weight(s.children[i], smax) == Weight(t.children[i], smax)
        ensures t.children[i].pinned ==> s.children[i].pinned
        ensures s.children[i].pinned && !t.children[i].pinned ==> i in PeeledSet(t, smax)
      {
        if Stubbed(t.children[i], s.children[i], smax) {
          StubKeepsWeight(t.children[i], s.children[i], smax);
        }
      }
      SameWeightsSamePeel(t, s, smax);
    }
  }

  /** A parent's peel is a function of its children's weights, however the peeled ones got peeled. */
  lemma SameWeightsSamePeel(t: Dir, s: Dir, smax: int)
    requires !t.pinned && !s.pinned && t.own == s.own && |t.children| == |s.children|
    requires forall i: nat :: i < |t.children| ==>
      && Weight(s.children[i], smax) == Weight(t.children[i], smax)
      && (t.children[i].pinned ==> s.children[i].pinned)
      && (s.children[i].pinned && !t.children[i].pinned ==> i in PeeledSet(t, smax))
    ensures PeeledSet(s, smax) == PeeledSet(t, smax)
    ensures Weight(s, smax) == Weight(t, smax)
  {
    hide Greedy, Weight;
    var ws := Weights(t.children, smax);
    assert Weights(s.children, smax) == ws;
    var gone := NewlyPinned(t, s, smax);
    assert StartWeight(s, smax) == Left(ws, gone, StartWeight(t, smax)) by {
      SavingsUnion(ws, Pinned(t.children), gone, |ws|);
    }
    PickedAfterPins(t, s, smax, gone);
    assert PeeledSet(s, smax) == PeeledSet(t, smax) by {
      assert PeeledSet(s, smax) == Pinned(s.children) + Elems(Picks(s, smax));
      assert PeeledSet(t, smax) == Pinned(t.children) + Elems(Picks(t, smax));
    }
    WeightByPeeledSet(t, smax);
    WeightByPeeledSet(s, smax);
  }

  lemma NewlyPinned(t: Dir, s: Dir, smax: int) returns (gone: set<nat>)
    requires |t.children| == |s.children|
    requires forall i: nat :: i < |t.children| ==>
      && (t.children[i].pinned ==> s.children[i].pinned)
      && (s.children[i].pinned && !t.children[i].pinned ==> i in PeeledSet(t, smax))
    ensures gone <= Elems(Picks(t, smax)) && gone !! Pinned(t.children)
    ensures Unpinned(s.children) == Unpinned(t.children) - gone
    ensures Pinned(s.children) == Pinned(t.children) + gone
  {
    hide Greedy, Weight, Picks;
    gone := Pinned(s.children) - Pinned(t.children);
    PicksAreUnpinned(t, smax);
  }

  lemma PickedAfterPins(t: Dir, s: Dir, smax: int, gone: set<nat>)
    requires Weights(s.children, smax) == Weights(t.children, smax)
    requires gone <= Elems(Picks(t, smax))
    requires Unpinned(s.children) == Unpinned(t.children) - gone
    requires StartWeight(s, smax) == Left(Weights(t.children, smax), gone, StartWeight(t, smax))
    ensures Elems(Picks(s, smax)) == Elems(Picks(t, smax)) - gone
  {
    hide Greedy;
    GreedyAfterPrepeel(Weights(t.children, smax), Unpinned(t.children), StartWeight(t, smax), smax, gone);
  }

  /**
    Stub substitution: the stubbed tree has the same roots as the full tree, except those the
    stubs hide, which are exactly the full tree's roots strictly inside them.
   */
  lemma {:induction false} StubKeepsRoots(t: Dir, s: Dir, smax: int, p: Path)
    requires Stubbed(t, s, smax)
    ensures IsRootBelow(s, smax, p) <==> IsRootBelow(t, smax, p) && !InsideStub(t, s, p)
    decreases t
  {
    StubKeepsWeight(t, s, smax);
    if t == s {
      NothingInsideItself(t, p);
    } else if p != [] && p[0] < |t.children| {
      var i := p[0];
      if |p| > 1 {
        if Stubbed(t.children[i], s.children[i], smax) {
          StubKeepsRoots(t.children[i], s.children[i], smax, p[1..]);
        } else if t.children[i].pinned {
          NothingInsidePinned(t.children[i], s.children[i], p[1..], smax);
        }
      }
    }
  }

  lemma {:induction false} NothingInsideItself(t: Dir, p: Path)
    ensures !InsideStub(t, t, p)
    decreases |p|
  {
    if p != [] && p[0] < |t.children| {
      NothingInsideItself(t.children[p[0]], p[1..]);
    }
  }

  lemma NothingInsidePinned(t: Dir, s: Dir, p: Path, smax: int)
    requires t.pinned && s.pinned
    ensures !IsRootBelow(s, smax, p) && !IsRootBelow(t, smax, p)
  {
  }

  // ---------- Pinning a child that need not be peeled ----------

  /** s is t with one child that was not pinned replaced by a stub, whatever weight that carries. */
  ghost predicate PinnedAt(t: Dir, s: Dir, i: nat) {
    && !t.pinned && i < |t.children| && !t.children[i].pinned
    && i < |s.children| && s.children[i].pinned && s == t.(children := t.children[i := s.children[i]])
  }

  /** Pinning a child of weight w never makes a parent that fits oversized. */
  ghost predicate PinningSafe(w: int) {
    forall t: Dir, s: Dir, i: nat, smax: int ::
      PinnedAt(t, s, i) && Weight(t.children[i], smax) == w && Weight(t, smax) <= smax ==> Weight(s, smax) <= smax
  }

  /** A peeled child costs a row, whatever it weighs. */
  lemma {:induction false} RowForAny(a: seq<int>, b: seq<int>, s: set<nat>, i: nat, n: nat)
    requires n <= |a| == |b| && i in s && forall k :: 0 <= k < |a| && k != i ==> a[k] == b[k]
    ensures Sum(a[..n]) - Savings(a, s, n) == Sum(b[..n]) - Savings(b, s, n)
  {
    if n > 0 {
      RowForAny(a, b, s, i, n - 1);
      assert a[..n][..n - 1] == a[..n - 1] && b[..n][..n - 1] == b[..n - 1];
    }
  }

  /** What s weighs with these children peeled besides its pinned ones, reckoned by the weights in t. */
  lemma LeftWithStub(t: Dir, s: Dir, i: nat, smax: int, more: set<nat>)
    requires PinnedAt(t, s, i) && more <= Unpinned(s.children)
    ensures var ws := Weights(t.children, smax);
      Left(Weights(s.children, smax), more, StartWeight(s, smax))
        == t.own + Sum(ws) - Savings(ws, Pinned(t.children) + {i} + more, |ws|)
  {
    hide Weight;
    var ws, us := Weights(t.children, smax), Weights(s.children, smax);
    var all := Pinned(s.children) + more;
    assert Pinned(s.children) == Pinned(t.children) + {i};
    SavingsUnion(us, Pinned(s.children), more, |us|);
    RowForAny(ws, us, all, i, |ws|);
    assert ws[..|ws|] == ws && us[..|us|] == us;
  }

  lemma StillUnpinned(t: Dir, s: Dir, i: nat)
    requires PinnedAt(t, s, i)
    ensures !s.pinned
  {
  }

  /** Some peel of the stubbed parent fits: whatever t peeled, and the stub. */
  lemma StubbedPeelFits(t: Dir, s: Dir, i: nat, smax: int, more: set<nat>)
    requires PinnedAt(t, s, i) && Weight(t.children[i], smax) >= TRANSITION_WEIGHT && Weight(t, smax) <= smax
    requires more == Elems(Picks(t, smax)) - {i}
    ensures more <= Unpinned(s.children) && Left(Weights(s.children, smax), more, StartWeight(s, smax)) <= smax
  {
    hide Weight, Greedy, Picks, StartWeight, Left;
    var ws := Weights(t.children, smax);
    var peeled := PeeledSet(t, smax);
    PicksAreUnpinned(t, smax);
    assert more <= Unpinned(s.children);
    LeftWithStub(t, s, i, smax, more);
    WeightByPeeledSet(t, smax);
    assert Pinned(t.children) + {i} + more == peeled + {i};
    SavingsRemove(ws, peeled + {i}, i, |ws|);
    if i in peeled {
      assert peeled + {i} == peeled;
    } else {
      assert peeled + {i} - {i} == peeled;
    }
  }

  /** A child that weighs at least its row can be pinned: a parent that fits still does. */
  lemma PinningKeepsFit(t: Dir, s: Dir, i: nat, smax: int)
    requires PinnedAt(t, s, i) && Weight(t.children[i], smax) >= TRANSITION_WEIGHT && Weight(t, smax) <= smax
    ensures Weight(s, smax) <= smax
  {
    hide *;
    var more := Elems(Picks(t, smax)) - {i};
    StubbedPeelFits(t, s, i, smax, more);
    StillUnpinned(t, s, i);
    PeelsFewest(s, smax, more);
  }

  /** And only such a child: under a lighter one a parent with room for it may have none for the row. */
  lemma PinningSafeExactly(w: int)
    ensures PinningSafe(w) <==> w >= 200
  {
    hide Weight;
    if w >= TRANSITION_WEIGHT {
      forall t: Dir, s: Dir, i: nat, smax: int |
        PinnedAt(t, s, i) && Weight(t.children[i], smax) == w && Weight(t, smax) <= smax
        ensures Weight(s, smax) <= smax
      {
        PinningKeepsFit(t, s, i, smax);
      }
    } else {
      var t, s := Dir(0, false, [Dir(w, false, [])]), Dir(0, false, [Dir(w, true, [])]);
      assert PinnedAt(t, s, 0);
      LightChild(w, TRANSITION_WEIGHT - 1);
      assert Weight(t.children[0], TRANSITION_WEIGHT - 1) == w;
    }
  }

  lemma LightChild(w: int, smax: int)
    requires w <= smax < TRANSITION_WEIGHT
    ensures Weight(Dir(w, false, []), smax) == w && Weight(Dir(0, false, [Dir(w, false, [])]), smax) == w
    ensures Weight(Dir(0, false, [Dir(w, true, [])]), smax) == TRANSITION_WEIGHT
  {
    LeafWeight(w, smax);
    var child, stub := Dir(w, false, []), Dir(w, true, []);
    assert Weights([child], smax) == [w] && Weights([stub], smax) == [w];
    assert Sum([w]) == w by { assert [w][..0] == []; }
    assert Savings([w], {}, 1) == 0 && Savings([w], {0}, 1) == w - TRANSITION_WEIGHT;
    assert Pinned([child]) == {} && Pinned([stub]) == {0} && Unpinned([stub]) == {};
    assert Picks(Dir(0, false, [child]), smax) == [] && Picks(Dir(0, false, [stub]), smax) == [];
    assert Elems([]) == {};
  }

  lemma LeafWeight(w: int, smax: int)
    ensures Weight(Dir(w, false, []), smax) == w
  {
    var d := Dir(w, false, []);
    assert Weights(d.children, smax) == [] && Unpinned(d.children) == {} && Picks(d, smax) == [] && Elems([]) == {};
  }

  // ---------- Merging back ----------

  function ShouldMerge(childWeight: int, parentWeight: int, smax: int, smin: int): bool {
    childWeight < smin && parentWeight + childWeight - TRANSITION_WEIGHT <= smax
  }

  /**
    Exactly which nested catalogs are merged back: those below smin that leave the parent within smax
    with just the children peeled that are peeled now.
   */
  lemma MergesExactly(d: Dir, i: nat, child: Dir, smax: int, smin: int)
    requires !d.pinned && i < |d.children| && d.children[i].pinned && !child.pinned
    requires Weight(d.children[i], smax) == Weight(child, smax)
    ensures var merged := Dir(d.own, false, d.children[i := child]);
      ShouldMerge(Weight(child, smax), Weight(d, smax), smax, smin) <==>
        Weight(child, smax) < smin
        && Left(Weights(merged.children, smax), Elems(Picks(d, smax)), StartWeight(merged, smax)) <= smax
  {
    hide Greedy;
    MergedStart(d, i, child, smax);
  }

  lemma MergedStart(d: Dir, i: nat, child: Dir, smax: int)
    requires i < |d.children| && d.children[i].pinned && !child.pinned
    requires Weight(d.children[i], smax) == Weight(child, smax)
    ensures var merged := Dir(d.own, false, d.children[i := child]);
      && Weights(merged.children, smax) == Weights(d.children, smax)
      && Unpinned(merged.children) == Unpinned(d.children) + {i}
      && StartWeight(merged, smax) == StartWeight(d, smax) + Saving(Weights(d.children, smax), i)
  {
    hide Greedy;
    var merged := Dir(d.own, false, d.children[i := child]);
    var ws := Weights(d.children, smax);
    assert Weights(merged.children, smax) == ws;
    assert Pinned(d.children) == Pinned(merged.children) + {i};
    assert Unpinned(merged.children) == Unpinned(d.children) + {i};
    SavingsRemove(ws, Pinned(d.children), i, |ws|);
    assert Pinned(d.children) - {i} == Pinned(merged.children);
  }

  /**
    Merging a nested catalog that ShouldMerge approves leaves the parent within smax, with no
    more of its other children peeled than before.
   */
  lemma MergeFits(d: Dir, i: nat, child: Dir, smax: int, smin: int)
    requires !d.pinned && i < |d.children| && d.children[i].pinned && !child.pinned
    requires Weight(d.children[i], smax) == Weight(child, smax)
    requires ShouldMerge(Weight(child, smax), Weight(d, smax), smax, smin)
    ensures var merged := Dir(d.own, false, d.children[i := child]);
      Weight(merged, smax) <= smax && |Picks(merged, smax)| <= |Picks(d, smax)|
  {
    hide Greedy;
    var merged := Dir(d.own, false, d.children[i := child]);
    var ws := Weights(d.children, smax);
    MergedStart(d, i, child, smax);
    PicksAreUnpinned(d, smax);
    GreedyIsFewest(ws, Unpinned(merged.children), StartWeight(merged, smax), smax, Elems(Picks(d, smax)));
    if Weight(merged, smax) > smax {
      GreedyIsLightest(ws, Unpinned(merged.children), StartWeight(merged, smax), smax, Elems(Picks(d, smax)));
    }
  }

  /** Split peels as few unpinned children of d as any set of them that would make d fit. */
  lemma PeelsFewest(d: Dir, smax: int, s: set<nat>)
    requires !d.pinned && s <= Unpinned(d.children)
    requires Left(Weights(d.children, smax), s, StartWeight(d, smax)) <= smax
    ensures |Picks(d, smax)| <= |s| && Weight(d, smax) <= smax
  {
    var ws := Weights(d.children, smax);
    GreedyIsFewest(ws, Unpinned(d.children), StartWeight(d, smax), smax, s);
    if Weight(d, smax) > smax {
      GreedyIsLightest(ws, Unpinned(d.children), StartWeight(d, smax), smax, s);
    }
  }
}
