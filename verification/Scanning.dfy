/** A linear scan of a record array: every wanted record read in order, or no answer if one cannot be. */
module Scanning {
  import opened Bytes

  ghost function Scan<T, U>(xs: seq<T>, want: T -> bool, read: T -> Option<U>): Option<seq<U>> {
    if xs == [] then Some([])
    else
      var front, x := Scan(xs[..|xs| - 1], want, read), xs[|xs| - 1];
      if front.None? || !want(x) then front
      else if read(x).None? then None
      else Some(front.value + [read(x).value])
  }

  /** One record further. */
  lemma ScanStep<T, U>(xs: seq<T>, i: nat, want: T -> bool, read: T -> Option<U>)
    requires i < |xs|
    ensures Scan(xs[..i + 1], want, read) ==
            var front := Scan(xs[..i], want, read);
            if front.None? || !want(xs[i]) then front
            else if read(xs[i]).None? then None
            else Some(front.value + [read(xs[i]).value])
  {
    assert xs[..i + 1][..i] == xs[..i];
  }

  /** Records nobody wants change nothing. */
  lemma {:induction false} ScanSkip<T, U>(xs: seq<T>, i: nat, j: nat, want: T -> bool, read: T -> Option<U>)
    requires i <= j <= |xs| && forall k :: i <= k < j ==> !want(xs[k])
    ensures Scan(xs[..j], want, read) == Scan(xs[..i], want, read)
  {
    if i < j {
      ScanSkip(xs, i, j - 1, want, read);
      ScanStep(xs, j - 1, want, read);
    }
  }

  /** A scan that has failed stays failed. */
  lemma {:induction false} ScanFails<T, U>(xs: seq<T>, i: nat, want: T -> bool, read: T -> Option<U>)
    requires i <= |xs| && Scan(xs[..i], want, read).None?
    ensures Scan(xs, want, read).None?
    decreases |xs| - i
  {
    if i < |xs| {
      ScanStep(xs, i, want, read);
      ScanFails(xs, i + 1, want, read);
    } else {
      assert xs[..i] == xs;
    }
  }

  lemma ScanAll<T, U>(xs: seq<T>, i: nat, want: T -> bool, read: T -> Option<U>)
    requires i <= |xs| && forall k :: i <= k < |xs| ==> !want(xs[k])
    ensures Scan(xs, want, read) == Scan(xs[..i], want, read)
  {
    ScanSkip(xs, i, |xs|, want, read);
    assert xs[..|xs|] == xs;
  }

  lemma ScanNone<T, U>(xs: seq<T>, i: nat, want: T -> bool, read: T -> Option<U>)
    requires i <= |xs| && forall k :: 0 <= k < i ==> !want(xs[k])
    ensures Scan(xs[..i], want, read) == Some([])
  {
    ScanSkip(xs, 0, i, want, read);
    assert xs[..0] == [];
  }

  /** The first record that matches. */
  ghost function First<T>(xs: seq<T>, want: T -> bool): Option<T> {
    if xs == [] then None
    else if want(xs[0]) then Some(xs[0])
    else First(xs[1..], want)
  }

  lemma {:induction false} FirstAt<T>(xs: seq<T>, want: T -> bool, i: nat)
    requires i <= |xs| && forall k :: 0 <= k < i ==> !want(xs[k])
    ensures i < |xs| && want(xs[i]) ==> First(xs, want) == Some(xs[i])
    ensures i == |xs| ==> First(xs, want) == None
  {
    if i > 0 {
      FirstAt(xs[1..], want, i - 1);
    }
  }

  lemma {:induction false} FirstIs<T>(xs: seq<T>, want: T -> bool)
    ensures match First(xs, want)
      case Some(x) => x in xs && want(x)
      case None => forall k :: 0 <= k < |xs| ==> !want(xs[k])
  {
    if xs != [] && !want(xs[0]) {
      FirstIs(xs[1..], want);
    }
  }
}
