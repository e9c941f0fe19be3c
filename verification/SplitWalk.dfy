/**
  The walk that carries the split policy out over the caller's records: it fills in each
  directory's weight and collects the catalog roots, post-order.
 */
module SplitWalk {
  import opened SplitPolicy

  /** One directory of the caller's tree.  Only `weight` is the walk's to write. */
  class DirNode {
    const own: int
    const children: seq<DirNode>
    const pinned: bool
    var weight: int
    /** The subtree as a value. */
    ghost const shape: Dir

    constructor (own: int, children: seq<DirNode>, pinned: bool)
      requires forall i :: 0 <= i < |children| ==> children[i].Valid()
      ensures Valid()
      ensures this.own == own && this.children == children && this.pinned == pinned
    {
      this.own := own;
      this.children := children;
      this.pinned := pinned;
      this.weight := 0;
      this.shape := Dir(own, pinned, seq(|children|, i requires 0 <= i < |children| => children[i].shape));
    }

    ghost predicate Valid()
      decreases shape
    {
      && shape.own == own && shape.pinned == pinned && |shape.children| == |children|
      && forall i :: 0 <= i < |children| ==> children[i].shape == shape.children[i] && children[i].Valid()
    }

    /** The directories Split looks at: it never looks inside a pinned one. */
    ghost function Walked(): (s: set<DirNode>)
      requires Valid()
      ensures this in s
      ensures !pinned ==> forall i, n :: 0 <= i < |children| && n in children[i].Walked() ==> n in s
      decreases shape
    {
      if pinned then {this}
      else {this} + set i: nat, n | i < |children| && n in children[i].Walked() :: n
    }

    lemma WalkedThrough(n: DirNode) returns (i: nat)
      requires Valid() && !pinned && n in Walked() && n != this
      ensures i < |children| && n in children[i].Walked()
    {
      i :| i < |children| && n in children[i].Walked();
    }
  }

  /** Every directory looked at carries the weight its parent counted for it. */
  ghost predicate AllWeighed(nodes: set<DirNode>, smax: int)
    reads nodes
  {
    forall n :: n in nodes ==> n.weight == Weight(n.shape, smax)
  }

  /** n is the directory the path p leads to from d. */
  ghost predicate Reaches(d: DirNode, p: Path, n: DirNode)
    decreases |p|
  {
    if p == [] then n == d
    else p[0] < |d.children| && Reaches(d.children[p[0]], p[1..], n)
  }

  /** The listed directories are the ones the roots' paths lead to, in the same order. */
  ghost predicate Found(d: DirNode, roots: seq<Root>, nodes: seq<DirNode>) {
    && |roots| == |nodes|
    && forall k :: 0 <= k < |roots| ==> Reaches(d, roots[k].path, nodes[k])
  }

  lemma FoundUnder(d: DirNode, i: nat, roots: seq<Root>, nodes: seq<DirNode>)
    requires i < |d.children| && Found(d.children[i], roots, nodes)
    ensures Found(d, Under(i, roots), nodes)
  {
    forall k | 0 <= k < |roots|
      ensures Reaches(d, Under(i, roots)[k].path, nodes[k])
    {
      assert ([i] + roots[k].path)[1..] == roots[k].path;
    }
  }

  ghost function ChildNodes(d: DirNode, indices: seq<nat>): (nodes: seq<DirNode>)
    requires forall k :: 0 <= k < |indices| ==> indices[k] < |d.children|
    ensures |nodes| == |indices|
    ensures forall k :: 0 <= k < |indices| ==> nodes[k] == d.children[indices[k]]
  {
    seq(|indices|, k requires 0 <= k < |indices| => d.children[indices[k]])
  }

  lemma ChildNodesAppend(d: DirNode, indices: seq<nat>, i: nat)
    requires forall k :: 0 <= k < |indices| ==> indices[k] < |d.children|
    requires i < |d.children|
    ensures ChildNodes(d, indices + [i]) == ChildNodes(d, indices) + [d.children[i]]
  {
  }

  /** The roots below d are those below its children and then d's own peeled children. */
  lemma FoundPeeled(d: DirNode, smax: int, inner: seq<DirNode>)
    requires d.Valid() && !d.pinned
    requires Found(d, RootsInChildren(d.shape.children, smax), inner)
    ensures Found(d, RootsBelow(d.shape, smax), inner + ChildNodes(d, Peeled(d.shape, smax)))
  {
    hide Greedy, Peeled, RootsInChildren;
    var peeled := Peeled(d.shape, smax);
    forall k | 0 <= k < |peeled|
      ensures Reaches(d, [peeled[k]], ChildNodes(d, peeled)[k])
    {
    }
  }

  ghost function Range(lo: nat, hi: nat): (r: seq<nat>)
    requires lo <= hi
    ensures |r| == hi - lo && forall k :: 0 <= k < |r| ==> r[k] == lo + k
  {
    seq(hi - lo, k requires 0 <= k => lo + k)
  }

  /** The children not pinned among the first n, in child order. */
  ghost function Kept(ds: seq<Dir>, n: nat): (kept: seq<nat>)
    requires n <= |ds|
    ensures forall k :: 0 <= k < |kept| ==> kept[k] < n && !ds[kept[k]].pinned
    ensures forall i :: 0 <= i < n && !ds[i].pinned ==> i in kept
    ensures Ascending(kept)
  {
    if n == 0 then [] else Kept(ds, n - 1) + (if ds[n - 1].pinned then [] else [n - 1])
  }

  ghost predicate Ascending(s: seq<nat>) {
    forall j, k :: 0 <= j < k < |s| ==> s[j] < s[k]
  }

  /** The position of the heaviest attached child, the first one of equals. */
  method Heaviest(weights: seq<int>, attached: seq<nat>) returns (best: nat)
    requires |attached| > 0 && Ascending(attached)
    requires forall k :: 0 <= k < |attached| ==> attached[k] < |weights|
    ensures best < |attached| && IsTop(weights, Elems(attached), attached[best])
  {
    best := 0;
    for pos := 1 to |attached|
      invariant best < pos <= |attached|
      invariant forall k :: 0 <= k < pos && k != best ==> Before(weights, attached[best], attached[k])
    {
      if weights[attached[pos]] > weights[attached[best]] {
        best := pos;
      }
    }
    forall j | j in Elems(attached) && j < |weights| && j != attached[best]
      ensures Before(weights, attached[best], j)
    {
      var k :| 0 <= k < |attached| && attached[k] == j;
    }
  }

  ghost function Without(s: seq<nat>, pos: nat): seq<nat>
    requires pos < |s|
  {
    s[..pos] + s[pos + 1..]
  }

  lemma ElemsWithout(s: seq<nat>, pos: nat)
    requires pos < |s| && Ascending(s)
    ensures Elems(Without(s, pos)) == Elems(s) - {s[pos]} && Ascending(Without(s, pos))
    ensures forall k :: 0 <= k < |Without(s, pos)| ==> Without(s, pos)[k] in Elems(s)
  {
    var t := Without(s, pos);
    forall x | x in Elems(s) && x != s[pos]
      ensures x in t
    {
      var k :| 0 <= k < |s| && s[k] == x;
      assert t[if k < pos then k else k - 1] == x;
    }
    forall x | x in t
      ensures x in s && x != s[pos]
    {
      var k :| 0 <= k < |t| && t[k] == x;
      assert x == s[if k < pos then k else k + 1];
    }
  }

  class Splitter {
    /** The roots found so far. */
    var roots: seq<DirNode>

    constructor ()
      ensures roots == []
    {
      roots := [];
    }

    /** Decides d's subtree: its weight, the weight of everything looked at, and the roots below. */
    method Walk(d: DirNode, smax: int) returns (w: int)
      requires d.Valid()
      modifies this, d.Walked()
      ensures w == Weight(d.shape, smax)
      ensures AllWeighed(d.Walked(), smax)
      ensures old(roots) <= roots && Found(d, RootsBelow(d.shape, smax), roots[|old(roots)|..])
      decreases d.shape, 1
    {
      hide Greedy, Picks, Found, RootsInChildren, PinnedInOrder, Kept, Range, Weight, DirNode.Walked;
      PinnedAsFound(d, smax);
      if d.pinned {
        d.weight := d.own;
        OnlyItself(d);
        assert roots[|old(roots)|..] == [];
        return d.weight;
      }
      var weights := WalkChildren(d, smax);
      ghost var others := d.Walked() - {d};
      assert AllWeighed(others, smax);
      label childrenDone:
      ghost var inner := roots;
      var attached: seq<nat> := [];
      w, attached := AttachAll(d, weights);
      w, attached := PeelPinned(d, weights, w, attached);
      w := PeelHeaviest(d, smax, weights, w, attached);
      RootsGrow(d, smax, old(roots), inner, roots);
      d.weight := w;
      forall n: DirNode | n in others
        ensures n.weight == Weight(n.shape, smax)
      {
        assert old@childrenDone(n.weight) == Weight(n.shape, smax);
      }
      WeighedWithRoot(d, smax);
    }

    /** The children's subtrees first, in child order. */
    method WalkChildren(d: DirNode, smax: int) returns (weights: seq<int>)
      requires d.Valid() && !d.pinned
      modifies this, d.Walked()
      ensures weights == Weights(d.shape.children, smax)
      ensures AllWeighed(d.Walked() - {d}, smax)
      ensures old(roots) <= roots && Found(d, RootsInChildren(d.shape.children, smax), roots[|old(roots)|..])
      decreases d.shape, 0
    {
      hide Weight, RootsBelow, Found, RootsInChildren, Weights, DirNode.Walked;
      weights := [];
      NoChildren(d, smax);
      assert roots[|old(roots)|..] == [];
      for i := 0 to |d.children|
        invariant weights == Weights(d.shape.children[..i], smax)
        invariant forall j :: 0 <= j < i ==> AllWeighed(d.children[j].Walked(), smax)
        invariant old(roots) <= roots
        invariant Found(d, RootsInChildren(d.shape.children[..i], smax), roots[|old(roots)|..])
      {
        ghost var sofar := roots;
        label beforeChild:
        var cw := Walk(d.children[i], smax);
        forall j, n | 0 <= j < i && n in d.children[j].Walked()
          ensures n.weight == Weight(n.shape, smax)
        {
          assert old@beforeChild(AllWeighed(d.children[j].Walked(), smax));
        }
        assert roots[|old(roots)|..] == sofar[|old(roots)|..] + roots[|sofar|..];
        ChildStep(d, smax, i, sofar[|old(roots)|..], roots[|sofar|..]);
        weights := weights + [cw];
      }
      assert d.shape.children[..|d.children|] == d.shape.children;
      forall n | n in d.Walked() - {d}
        ensures n.weight == Weight(n.shape, smax)
      {
        var i := d.WalkedThrough(n);
        assert AllWeighed(d.children[i].Walked(), smax);
      }
    }

    /** Every child starts out attached. */
    method AttachAll(d: DirNode, weights: seq<int>) returns (w: int, attached: seq<nat>)
      requires |weights| == |d.children|
      ensures w == d.own + Sum(weights) && attached == Range(0, |d.children|)
    {
      w, attached := d.own, [];
      for i := 0 to |d.children|
        invariant attached == Range(0, i)
        invariant w == d.own + Sum(weights[..i])
      {
        assert weights[..i + 1][..i] == weights[..i];
        w := w + weights[i];
        attached := attached + [i];
      }
      assert weights[..|d.children|] == weights;
    }

    /** Pinned children become roots before anything is weighed against smax. */
    method PeelPinned(d: DirNode, weights: seq<int>, w0: int, attached0: seq<nat>)
      returns (w: int, attached: seq<nat>)
      requires d.Valid() && |weights| == |d.children| && attached0 == Range(0, |d.children|)
      modifies this
      ensures w == w0 - Savings(weights, Pinned(d.shape.children), |weights|)
      ensures attached == Kept(d.shape.children, |d.children|)
      ensures roots == old(roots) + ChildNodes(d, PinnedInOrder(d.shape.children, |d.children|))
    {
      hide Pinning;
      w, attached := w0, attached0;
      ghost var k: nat := 0;
      var pos := 0;
      PinningStarts(d, weights, w0, old(roots));
      while pos < |attached|
        invariant Pinning(d, weights, w0, old(roots), w, attached, roots, pos, k)
        invariant pos <= |attached| && k <= |d.children|
        decreases |d.children| - k
      {
        PinningTurns(d, weights, w0, old(roots), w, attached, roots, pos, k);
        var i := attached[pos];
        if !d.children[i].pinned {
          pos := pos + 1;
        } else {
          w := w + TRANSITION_WEIGHT - weights[i];
          roots := roots + [d.children[i]];
          attached := attached[..pos] + attached[pos + 1..];
        }
        k := k + 1;
      }
      PinningEnds(d, weights, w0, old(roots), w, attached, roots, pos, k);
    }

    /** Peels the heaviest attached child until d fits or the heaviest is not worth a row. */
    method PeelHeaviest(d: DirNode, smax: int, weights: seq<int>, w0: int, attached0: seq<nat>)
      returns (w: int)
      requires d.Valid() && weights == Weights(d.shape.children, smax) && !d.pinned
      requires attached0 == Kept(d.shape.children, |d.children|)
      requires w0 == StartWeight(d.shape, smax)
      modifies this
      ensures w == Weight(d.shape, smax)
      ensures roots == old(roots) + ChildNodes(d, Picks(d.shape, smax))
    {
      hide Greedy, Peeling, ChildNodes, Picks, Weight, Weights, StartWeight, Ascending, Elems, Kept;
      w := w0;
      var attached: seq<nat> := attached0;
      ghost var picked: seq<nat> := [];
      PeelingStarts(d, weights, w0, smax, attached);
      while w > smax && |attached| > 0
        invariant Peeling(d, weights, w0, smax, w, attached, picked)
        invariant forall k :: 0 <= k < |picked| ==> picked[k] < |d.children|
        invariant roots == old(roots) + ChildNodes(d, picked)
        decreases |attached|
      {
        PeelingBounds(d, weights, w0, smax, w, attached, picked);
        var best := Heaviest(weights, attached);
        var i := attached[best];
        if weights[i] <= TRANSITION_WEIGHT {
          PeelingStops(d, weights, w0, smax, w, attached, picked, best);
          return;
        }
        PeelingTurn(d, weights, w0, smax, w, attached, picked, best);
        ChildNodesAppend(d, picked, i);
        w := w + TRANSITION_WEIGHT - weights[i];
        roots := roots + [d.children[i]];
        attached := attached[..best] + attached[best + 1..];
        picked := picked + [i];
      }
      NobodyLeft(attached);
      PeelingEnds(d, weights, w0, smax, w, attached, picked);
    }
  }

  lemma NobodyLeft(attached: seq<nat>)
    ensures attached == [] ==> Elems(attached) == {}
  {
  }

  /** Where the peel of the heaviest stands: picked so far, and what the policy would still pick. */
  ghost predicate Peeling(d: DirNode, weights: seq<int>, w0: int, smax: int, w: int, attached: seq<nat>,
                          picked: seq<nat>) {
    && d.Valid() && !d.pinned && weights == Weights(d.shape.children, smax) && w0 == StartWeight(d.shape, smax)
    && Ascending(attached) && (forall k :: 0 <= k < |attached| ==> attached[k] < |weights|)
    && Picks(d.shape, smax) == picked + Greedy(weights, Elems(attached), w, smax)
    && (forall k :: 0 <= k < |picked| ==> picked[k] < |weights|)
    && Elems(picked) !! Elems(attached) && w == Left(weights, Elems(picked), w0)
  }

  lemma PeelingStarts(d: DirNode, weights: seq<int>, w0: int, smax: int, attached: seq<nat>)
    requires d.Valid() && !d.pinned && weights == Weights(d.shape.children, smax) && w0 == StartWeight(d.shape, smax)
    requires attached == Kept(d.shape.children, |d.children|)
    ensures Peeling(d, weights, w0, smax, w0, attached, [])
  {
    hide Greedy, Weights, StartWeight;
    KeptElems(d.shape.children);
    SavingsEmpty(weights, |weights|);
    assert Elems([]) == {};
    assert [] + Picks(d.shape, smax) == Picks(d.shape, smax);
  }

  lemma PeelingBounds(d: DirNode, weights: seq<int>, w0: int, smax: int, w: int, attached: seq<nat>, picked: seq<nat>)
    requires Peeling(d, weights, w0, smax, w, attached, picked)
    ensures |weights| == |d.children| && Ascending(attached)
    ensures forall k :: 0 <= k < |attached| ==> attached[k] < |weights|
    ensures forall k :: 0 <= k < |picked| ==> picked[k] < |d.children|
  {
  }

  lemma PeelingTurn(d: DirNode, weights: seq<int>, w0: int, smax: int, w: int, attached: seq<nat>, picked: seq<nat>,
                    best: nat)
    requires Peeling(d, weights, w0, smax, w, attached, picked) && best < |attached| && w > smax
    requires attached[best] < |weights|
    requires IsTop(weights, Elems(attached), attached[best]) && weights[attached[best]] > TRANSITION_WEIGHT
    ensures Peeling(d, weights, w0, smax, w + TRANSITION_WEIGHT - weights[attached[best]],
                    attached[..best] + attached[best + 1..], picked + [attached[best]])
  {
    hide Greedy, Weights, StartWeight, Picks, Ascending, IsTop, Savings;
    var rest := PickOne(weights, attached, w, smax, picked, best);
  }

  /** Done, because it fits or nothing left is worth a row. */
  lemma PeelingEnds(d: DirNode, weights: seq<int>, w0: int, smax: int, w: int, attached: seq<nat>, picked: seq<nat>)
    requires Peeling(d, weights, w0, smax, w, attached, picked)
    requires w <= smax || forall i :: i in Elems(attached) ==> Saving(weights, i) <= 0
    ensures w == Weight(d.shape, smax) && picked == Picks(d.shape, smax)
  {
    hide Greedy, Weights, StartWeight, Picks, Ascending, Savings;
    NothingLeft(weights, Elems(attached), w, smax);
    NothingPicked(Greedy(weights, Elems(attached), w, smax));
    assert picked + [] == picked;
  }

  lemma PeelingStops(d: DirNode, weights: seq<int>, w0: int, smax: int, w: int, attached: seq<nat>, picked: seq<nat>,
                     best: nat)
    requires Peeling(d, weights, w0, smax, w, attached, picked) && best < |attached| && attached[best] < |weights|
    requires IsTop(weights, Elems(attached), attached[best]) && weights[attached[best]] <= TRANSITION_WEIGHT
    ensures w == Weight(d.shape, smax) && picked == Picks(d.shape, smax)
  {
    hide Greedy, Weights, StartWeight, Picks, Ascending, Savings, Weight;
    PeelingEnds(d, weights, w0, smax, w, attached, picked);
  }

  /** Where the peel of pinned children stands when children below k have been looked at. */
  ghost predicate Pinning(d: DirNode, weights: seq<int>, w0: int, before: seq<DirNode>,
                          w: int, attached: seq<nat>, roots: seq<DirNode>, pos: nat, k: nat) {
    && d.Valid() && |weights| == |d.children| && k <= |d.children| && pos <= |attached|
    && attached[..pos] == Kept(d.shape.children, k) && attached[pos..] == Range(k, |d.children|)
    && w == w0 - Savings(weights, Pinned(d.shape.children), k)
    && roots == before + ChildNodes(d, PinnedInOrder(d.shape.children, k))
  }

  lemma PinningStarts(d: DirNode, weights: seq<int>, w0: int, before: seq<DirNode>)
    requires d.Valid() && |weights| == |d.children|
    ensures Pinning(d, weights, w0, before, w0, Range(0, |d.children|), before, 0, 0)
  {
    assert ChildNodes(d, []) == [];
    assert before + [] == before;
  }

  lemma PinningAt(d: DirNode, weights: seq<int>, w0: int, before: seq<DirNode>,
                  w: int, attached: seq<nat>, roots: seq<DirNode>, pos: nat, k: nat)
    requires pos < |attached| && Pinning(d, weights, w0, before, w, attached, roots, pos, k)
    ensures k < |d.children| == |weights| && attached[pos] == k && attached[pos + 1..] == Range(k + 1, |d.children|)
    ensures |d.shape.children| == |d.children| && d.shape.children[k].pinned == d.children[k].pinned
  {
    hide Kept, PinnedInOrder, ChildNodes, DirNode.Valid, Savings;
    RangeStep(attached, pos, k, |d.children|);
    ChildShape(d, k);
  }

  lemma PinningKeeps(d: DirNode, weights: seq<int>, w0: int, before: seq<DirNode>,
                     w: int, attached: seq<nat>, roots: seq<DirNode>, pos: nat, k: nat)
    requires pos < |attached| && Pinning(d, weights, w0, before, w, attached, roots, pos, k)
    requires k < |d.children| && !d.children[k].pinned
    ensures Pinning(d, weights, w0, before, w, attached, roots, pos + 1, k + 1)
  {
    hide Range, Kept, PinnedInOrder, ChildNodes, DirNode.Valid, Savings;
    PinningAt(d, weights, w0, before, w, attached, roots, pos, k);
    ChildShape(d, k);
    KeptStep(d.shape.children, k);
    SavingsStep(weights, Pinned(d.shape.children), k);
    assert attached[..pos + 1] == attached[..pos] + [k];
  }

  lemma PinningPeels(d: DirNode, weights: seq<int>, w0: int, before: seq<DirNode>,
                     w: int, attached: seq<nat>, roots: seq<DirNode>, pos: nat, k: nat)
    requires pos < |attached| && Pinning(d, weights, w0, before, w, attached, roots, pos, k)
    requires k < |d.children| == |weights| && d.children[k].pinned
    ensures Pinning(d, weights, w0, before, w + TRANSITION_WEIGHT - weights[k], attached[..pos] + attached[pos + 1..],
                    roots + [d.children[k]], pos, k + 1)
  {
    hide Range, Kept, PinnedInOrder, ChildNodes, DirNode.Valid, Savings;
    PinningAt(d, weights, w0, before, w, attached, roots, pos, k);
    var ds := d.shape.children;
    ChildShape(d, k);
    KeptStep(ds, k);
    SavingsStep(weights, Pinned(ds), k);
    ChildNodesAppend(d, PinnedInOrder(ds, k), k);
    var rest := attached[..pos] + attached[pos + 1..];
    assert rest[..pos] == attached[..pos] && rest[pos..] == attached[pos + 1..];
  }

  lemma PinningTurns(d: DirNode, weights: seq<int>, w0: int, before: seq<DirNode>,
                     w: int, attached: seq<nat>, roots: seq<DirNode>, pos: nat, k: nat)
    requires pos < |attached| && Pinning(d, weights, w0, before, w, attached, roots, pos, k)
    ensures k < |d.children| == |weights| && attached[pos] == k
    ensures !d.children[k].pinned ==> Pinning(d, weights, w0, before, w, attached, roots, pos + 1, k + 1)
    ensures d.children[k].pinned ==>
      Pinning(d, weights, w0, before, w + TRANSITION_WEIGHT - weights[k], attached[..pos] + attached[pos + 1..],
              roots + [d.children[k]], pos, k + 1)
  {
    hide Pinning;
    PinningAt(d, weights, w0, before, w, attached, roots, pos, k);
    if d.children[k].pinned {
      PinningPeels(d, weights, w0, before, w, attached, roots, pos, k);
    } else {
      PinningKeeps(d, weights, w0, before, w, attached, roots, pos, k);
    }
  }

  lemma ChildShape(d: DirNode, k: nat)
    requires d.Valid() && k < |d.children|
    ensures |d.shape.children| == |d.children| && d.shape.children[k].pinned == d.children[k].pinned
    ensures k in Pinned(d.shape.children) <==> d.children[k].pinned
  {
    assert d.children[k].Valid();
  }

  lemma SavingsStep(ws: seq<int>, s: set<nat>, n: nat)
    requires n < |ws|
    ensures Savings(ws, s, n + 1) == Savings(ws, s, n) + (if n in s then Saving(ws, n) else 0)
  {
  }

  lemma KeptStep(ds: seq<Dir>, k: nat)
    requires k < |ds|
    ensures Kept(ds, k + 1) == if ds[k].pinned then Kept(ds, k) else Kept(ds, k) + [k]
    ensures PinnedInOrder(ds, k + 1) == if ds[k].pinned then PinnedInOrder(ds, k) + [k] else PinnedInOrder(ds, k)
  {
    assert Kept(ds, k) + [] == Kept(ds, k) && PinnedInOrder(ds, k) + [] == PinnedInOrder(ds, k);
  }

  lemma PinningEnds(d: DirNode, weights: seq<int>, w0: int, before: seq<DirNode>,
                    w: int, attached: seq<nat>, roots: seq<DirNode>, pos: nat, k: nat)
    requires pos == |attached| && Pinning(d, weights, w0, before, w, attached, roots, pos, k)
    ensures w == w0 - Savings(weights, Pinned(d.shape.children), |weights|)
    ensures attached == Kept(d.shape.children, |d.children|)
    ensures roots == before + ChildNodes(d, PinnedInOrder(d.shape.children, |d.children|))
  {
    hide Kept, PinnedInOrder, ChildNodes, Savings, DirNode.Valid;
    assert attached[pos..] == [] && attached[..pos] == attached;
    RangeEnds(k, |d.children|);
  }

  lemma RangeEnds(k: nat, n: nat)
    requires k <= n
    ensures Range(k, n) == [] ==> k == n
  {
  }

  lemma RangeStep(attached: seq<nat>, pos: nat, k: nat, n: nat)
    requires pos < |attached| && k <= n && attached[pos..] == Range(k, n)
    ensures k < n && attached[pos] == k && attached[pos + 1..] == Range(k + 1, n)
  {
    assert |attached[pos..]| > 0;
    assert attached[pos] == attached[pos..][0];
    assert attached[pos + 1..] == attached[pos..][1..];
    assert Range(k, n)[1..] == Range(k + 1, n);
  }

  lemma NoChildren(d: DirNode, smax: int)
    requires d.Valid()
    ensures Weights(d.shape.children[..0], smax) == []
    ensures Found(d, RootsInChildren(d.shape.children[..0], smax), [])
  {
  }

  lemma ChildStep(d: DirNode, smax: int, i: nat, before: seq<DirNode>, below: seq<DirNode>)
    requires d.Valid() && i < |d.children|
    requires Found(d, RootsInChildren(d.shape.children[..i], smax), before)
    requires Found(d.children[i], RootsBelow(d.shape.children[i], smax), below)
    ensures Found(d, RootsInChildren(d.shape.children[..i + 1], smax), before + below)
    ensures Weights(d.shape.children[..i + 1], smax)
         == Weights(d.shape.children[..i], smax) + [Weight(d.shape.children[i], smax)]
  {
    hide RootsBelow, Reaches;
    FoundUnder(d, i, RootsBelow(d.shape.children[i], smax), below);
    assert d.shape.children[..i + 1][..i] == d.shape.children[..i];
  }

  lemma KeptElems(ds: seq<Dir>)
    ensures Elems(Kept(ds, |ds|)) == Unpinned(ds)
  {
  }

  lemma OnlyItself(d: DirNode)
    requires d.Valid() && d.pinned
    ensures d.Walked() == {d}
  {
  }

  lemma WeighedWithRoot(d: DirNode, smax: int)
    requires d.Valid() && AllWeighed(d.Walked() - {d}, smax) && d.weight == Weight(d.shape, smax)
    ensures AllWeighed(d.Walked(), smax)
  {
    hide Weight, DirNode.Walked;
    forall n | n in d.Walked()
      ensures n.weight == Weight(n.shape, smax)
    {
      if n != d {
        assert n in d.Walked() - {d};
      }
    }
  }

  /** The roots d's subtree adds: those its children added, then its own peeled children. */
  lemma RootsGrow(d: DirNode, smax: int, before: seq<DirNode>, inner: seq<DirNode>, after: seq<DirNode>)
    requires d.Valid() && !d.pinned && before <= inner
    requires Found(d, RootsInChildren(d.shape.children, smax), inner[|before|..])
    requires after == inner + ChildNodes(d, PinnedInOrder(d.shape.children, |d.children|))
                    + ChildNodes(d, Picks(d.shape, smax))
    ensures before <= after && Found(d, RootsBelow(d.shape, smax), after[|before|..])
  {
    hide Greedy, Found, RootsInChildren, PinnedInOrder;
    var pins := PinnedInOrder(d.shape.children, |d.children|);
    var picks := Picks(d.shape, smax);
    assert Peeled(d.shape, smax) == pins + picks;
    assert ChildNodes(d, pins + picks) == ChildNodes(d, pins) + ChildNodes(d, picks);
    FoundPeeled(d, smax, inner[|before|..]);
    assert after[|before|..] == inner[|before|..] + ChildNodes(d, pins + picks);
  }

  lemma PinnedAsFound(d: DirNode, smax: int)
    requires d.Valid()
    ensures d.pinned ==> Found(d, RootsBelow(d.shape, smax), []) && Weight(d.shape, smax) == d.own
  {
  }

  /** One turn of the greedy peel, seen by the list of attached children the walk keeps. */
  lemma PickOne(weights: seq<int>, attached: seq<nat>, w: int, smax: int, picked: seq<nat>, best: nat)
    returns (rest: seq<nat>)
    requires Ascending(attached) && best < |attached| && w > smax
    requires forall k :: 0 <= k < |attached| ==> attached[k] < |weights|
    requires IsTop(weights, Elems(attached), attached[best]) && Saving(weights, attached[best]) > 0
    requires Elems(picked) !! Elems(attached)
    ensures var i, left := attached[best], Without(attached, best);
      && Ascending(left) && (forall k :: 0 <= k < |left| ==> left[k] < |weights|)
      && rest == Greedy(weights, Elems(left), w - Saving(weights, i), smax)
      && picked + Greedy(weights, Elems(attached), w, smax) == (picked + [i]) + rest
      && Elems(picked + [i]) !! Elems(left)
      && Savings(weights, Elems(picked + [i]), |weights|) == Savings(weights, Elems(picked), |weights|) + Saving(weights, i)
  {
    hide Greedy;
    var i := attached[best];
    TopIsPicked(weights, Elems(attached), w, smax, i);
    var b, tail := GreedyUnfold(weights, Elems(attached), w, smax);
    assert b == i;
    rest := tail;
    ElemsWithout(attached, best);
    assert Elems(picked + [i]) == Elems(picked) + {i} by {
      assert forall x :: x in picked + [i] <==> x in picked || x == i;
    }
    assert i in Elems(attached);
    SavingsRemove(weights, Elems(picked + [i]), i, |weights|);
    assert Elems(picked + [i]) - {i} == Elems(picked);
    assert picked + ([i] + rest) == (picked + [i]) + rest;
  }

  lemma SomePicked(s: seq<nat>)
    requires s != []
    ensures Elems(s) != {}
  {
    assert s[0] in Elems(s);
  }

  lemma NothingPicked(s: seq<nat>)
    requires Elems(s) == {}
    ensures s == []
  {
    if s != [] {
      SomePicked(s);
    }
  }

  /** Split: the roots below the tree root in discovery order, then the tree root itself. */
  method Split(root: DirNode, smax: int) returns (roots: seq<DirNode>)
    requires root.Valid()
    modifies root.Walked()
    ensures Found(root, Roots(root.shape, smax), roots)
    ensures AllWeighed(root.Walked(), smax)
  {
    var splitter := new Splitter();
    var w := splitter.Walk(root, smax);
    roots := splitter.roots + [root];
    assert splitter.roots[0..] == splitter.roots;
  }
}
