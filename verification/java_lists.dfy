/** The `java.util.List` operations the code relies on, over `seq`. */
module JavaLists {

  /** `list.indexOf(x)`: the first position holding `x`, or -1. */
  function IndexOf<T(==)>(xs: seq<T>, x: T): (r: int)
    ensures -1 <= r < |xs|
    ensures r == -1 <==> x !in xs
    ensures r >= 0 ==> xs[r] == x && x !in xs[..r]
  {
    if |xs| == 0 then -1
    else if xs[0] == x then 0
    else
      var r := IndexOf(xs[1..], x);
      if r == -1 then -1
      else
        assert xs[..r + 1] == [xs[0]] + xs[1..][..r];
        r + 1
  }

  /** What `list.remove(x)` leaves: the first occurrence of `x` dropped. */
  function Removed<T(==)>(xs: seq<T>, x: T): seq<T>
  {
    var i := IndexOf(xs, x);
    if i < 0 then xs else xs[..i] + xs[i + 1..]
  }

  /** A position holding `x` with no `x` before it is the one `indexOf`
      finds. */
  lemma IndexOfIsFirst<T>(xs: seq<T>, x: T, i: nat)
    requires i < |xs| && xs[i] == x && x !in xs[..i]
    ensures IndexOf(xs, x) == i
  {
  }

  /** `remove` takes away exactly one `x` when there is one and nothing
      otherwise; every other element keeps its relative order, and the
      elements before the removed one are untouched. */
  lemma RemovedSpec<T>(xs: seq<T>, x: T)
    ensures x !in xs ==> Removed(xs, x) == xs
    ensures x in xs ==> |Removed(xs, x)| == |xs| - 1
    ensures multiset(Removed(xs, x)) == multiset(xs) - multiset{x}
    ensures x in xs ==> exists i :: 0 <= i < |xs| && xs[i] == x && x !in xs[..i]
                                 && Removed(xs, x) == xs[..i] + xs[i + 1..]
  {
    var i := IndexOf(xs, x);
    if i >= 0 {
      assert xs == xs[..i] + [x] + xs[i + 1..];
      assert multiset(xs) == multiset(xs[..i]) + multiset{x} + multiset(xs[i + 1..]);
    } else {
      assert multiset(xs)[x] == 0;
    }
  }

  /** `ArrayList.remove(Object)`: search for the first occurrence, then close
      the gap. */
  method Remove<T(==)>(xs: seq<T>, x: T) returns (ys: seq<T>, removed: bool)
    ensures removed <==> x in xs
    ensures ys == Removed(xs, x)
  {
    var i := 0;
    while i < |xs| && xs[i] != x
      invariant 0 <= i <= |xs|
      invariant x !in xs[..i]
    {
      i := i + 1;
    }
    if i == |xs| {
      assert xs[..i] == xs;
      return xs, false;
    }
    IndexOfIsFirst(xs, x, i);
    ys, removed := xs[..i] + xs[i + 1..], true;
  }
}
