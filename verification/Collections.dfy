/** Small sequence vocabulary shared by every component of the model. */
module Collections {

  datatype Option<+T> = None | Some(value: T)
  {
    function GetOr(default: T): T {
      if Some? then value else default
    }
  }

  datatype Result<+T, +E> = Ok(value: T) | Err(error: E)

  ghost predicate NoDuplicates<T>(s: seq<T>) {
    forall i, j :: 0 <= i < j < |s| ==> s[i] != s[j]
  }

  function Elements<T>(s: seq<T>): (r: set<T>)
  {
    set x | x in s
  }

  function Last<T>(s: seq<T>): T
    requires s != []
  {
    s[|s| - 1]
  }

  /** `s.filter((x) => x !== gone)`. */
  function Without<T(==,!new)>(s: seq<T>, gone: T): (r: seq<T>)
    ensures gone !in r
    ensures forall x :: x in r <==> x in s && x != gone
    ensures |r| <= |s|
  {
    if s == [] then []
    else if s[0] == gone then Without(s[1..], gone)
    else [s[0]] + Without(s[1..], gone)
  }

  /** `s.indexOf(x)`, with None for -1. */
  function IndexOf<T(==)>(s: seq<T>, x: T): (r: Option<nat>)
    ensures r.None? <==> x !in s
    ensures r.Some? ==> r.value < |s| && s[r.value] == x && x !in s[..r.value]
  {
    if s == [] then None
    else if s[0] == x then Some(0)
    else
      match IndexOf(s[1..], x)
      case None => None
      case Some(i) =>
        assert s[..i + 1] == [s[0]] + s[1..][..i];
        Some(i + 1)
  }

  lemma {:induction false} WithoutKeepsOrder<T(!new)>(s: seq<T>, gone: T)
    requires NoDuplicates(s)
    ensures NoDuplicates(Without(s, gone))
    ensures |Without(s, gone)| == if gone in s then |s| - 1 else |s|
  {
    if s != [] {
      WithoutKeepsOrder(s[1..], gone);
      assert s[0] !in s[1..];
    }
  }

  lemma {:induction false} NoDuplicatesSize<T>(s: seq<T>)
    requires NoDuplicates(s)
    ensures |Elements(s)| == |s|
  {
    if s == [] {
      assert Elements(s) == {};
    } else {
      NoDuplicatesSize(s[1..]);
      assert Elements(s) == {s[0]} + Elements(s[1..]);
    }
  }

  lemma SubsetSize<T>(small: set<T>, big: set<T>)
    requires small <= big
    ensures |small| <= |big|
    ensures small != big ==> |small| < |big|
  {
    assert big == small + (big - small);
    assert |big| == |small| + |big - small|;
    if small != big {
      var x :| x in big - small;
      assert |big - small| > 0;
    }
  }

  /** A sequence longer than the set its elements come from repeats one of them. */
  lemma Pigeonhole<T>(s: seq<T>, universe: set<T>) returns (i: nat, j: nat)
    requires Elements(s) <= universe
    requires |s| > |universe|
    ensures i < j < |s| && s[i] == s[j]
  {
    if NoDuplicates(s) {
      NoDuplicatesSize(s);
      SubsetSize(Elements(s), universe);
      assert false;
    }
    i, j :| 0 <= i < j < |s| && s[i] == s[j];
  }

  lemma {:induction false} UpperBound(s: set<nat>) returns (bound: nat)
    ensures forall x :: x in s ==> x <= bound
  {
    if s == {} {
      bound := 0;
    } else {
      var x :| x in s;
      var rest := UpperBound(s - {x});
      bound := if rest < x then x else rest;
      assert forall y :: y in s ==> y == x || y in s - {x};
    }
  }
}
