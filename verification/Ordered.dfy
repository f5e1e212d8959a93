/** Sets of numbers in ascending order, as std::set and std::ranges::sort enumerate them. */
module Ordered {

  function Elements(xs: seq<nat>): set<nat> { set x | x in xs }

  predicate LowerBound(x: nat, xs: set<nat>) { forall y | y in xs :: x <= y }

  lemma {:induction false} HasLeast(xs: set<nat>)
    requires xs != {}
    ensures exists x :: x in xs && LowerBound(x, xs)
    decreases |xs|
  {
    var a :| a in xs;
    var rest := xs - {a};
    if rest == {} {
      assert LowerBound(a, xs) by { forall y | y in xs ensures a <= y { assert y == a || y in rest; } }
    } else {
      HasLeast(rest);
      var b :| b in rest && LowerBound(b, rest);
      var m := if a <= b then a else b;
      assert LowerBound(m, xs) by { forall y | y in xs ensures m <= y { assert y == a || y in rest; } }
    }
  }

  function Least(xs: set<nat>): (x: nat)
    requires xs != {}
    ensures x in xs && LowerBound(x, xs)
  {
    HasLeast(xs);
    var x :| x in xs && LowerBound(x, xs);
    x
  }

  /** The elements of a set in ascending order, as std::set enumerates them. */
  function Ascending(xs: set<nat>): seq<nat>
    decreases |xs|
  {
    if xs == {} then []
    else [Least(xs)] + Ascending(xs - {Least(xs)})
  }

  ghost predicate StrictlySorted(xs: seq<nat>) { forall i, j | 0 <= i < j < |xs| :: xs[i] < xs[j] }

  lemma {:induction false} AscendingIs(xs: set<nat>)
    ensures StrictlySorted(Ascending(xs))
    ensures Elements(Ascending(xs)) == xs
    ensures |Ascending(xs)| == |xs|
    decreases |xs|
  {
    hide StrictlySorted, Elements, LowerBound;
    if xs == {} {
      SortedNothing();
    } else {
      var x := Least(xs);
      AscendingIs(xs - {x});
      SortedCons(x, xs, Ascending(xs - {x}));
    }
  }

  lemma SortedNothing()
    ensures StrictlySorted([]) && Elements([]) == {}
  {}

  lemma SortedCons(x: nat, xs: set<nat>, rest: seq<nat>)
    requires x in xs && LowerBound(x, xs) && StrictlySorted(rest) && Elements(rest) == xs - {x}
    ensures StrictlySorted([x] + rest) && Elements([x] + rest) == xs
  {
    forall j | 0 <= j < |rest| ensures x < rest[j] { assert rest[j] in Elements(rest); }
    assert Elements([x] + rest) == {x} + Elements(rest);
  }

  lemma SortedTail(a: seq<nat>)
    requires StrictlySorted(a) && a != []
    ensures StrictlySorted(a[1..]) && Elements(a[1..]) == Elements(a) - {a[0]}
  {
    forall x | x in Elements(a) - {a[0]} ensures x in a[1..] {
      var i :| 0 <= i < |a| && a[i] == x;
      assert a[1..][i - 1] == x;
    }
    forall x | x in a[1..] ensures x in Elements(a) && x != a[0] {
      var i :| 0 <= i < |a[1..]| && a[1..][i] == x;
      assert a[i + 1] == x;
    }
  }

  lemma SameLeast(a: seq<nat>, b: seq<nat>)
    requires StrictlySorted(a) && StrictlySorted(b) && Elements(a) == Elements(b)
    ensures if a == [] then b == [] else b != [] && a[0] == b[0]
  {
    if a != [] { assert a[0] in Elements(b); }
    if b != [] { assert b[0] in Elements(a); }
  }

  lemma {:induction false} SortedUnique(a: seq<nat>, b: seq<nat>)
    requires StrictlySorted(a) && StrictlySorted(b) && Elements(a) == Elements(b)
    ensures a == b
    decreases |a|
  {
    SameLeast(a, b);
    if a != [] {
      SortedTail(a);
      SortedTail(b);
      SortedUnique(a[1..], b[1..]);
      assert a == [a[0]] + a[1..] && b == [b[0]] + b[1..];
    }
  }

  lemma AppendedElements(a: seq<nat>, b: seq<nat>)
    ensures Elements(a + b) == Elements(a) + Elements(b)
  {}

  function Under(keys: set<nat>, low: nat): set<nat> { set g | g in keys && g < low }

  /** A sorted sequence of the largest elements is the tail of the enumeration. */
  lemma SplitKeys(keys: set<nat>, low: nat, tail: seq<nat>)
    requires StrictlySorted(tail) && Elements(tail) == keys - Under(keys, low)
    ensures Ascending(keys) == Ascending(Under(keys, low)) + tail
  {
    hide Ascending, StrictlySorted, Elements;
    var under := Under(keys, low);
    AscendingIs(keys);
    AscendingIs(under);
    AppendedElements(Ascending(under), tail);
    SortedAppend(Ascending(under), tail, low);
    assert keys == under + (keys - under);
    SortedUnique(Ascending(keys), Ascending(under) + tail);
  }

  lemma SortedAppend(a: seq<nat>, b: seq<nat>, low: nat)
    requires StrictlySorted(a) && StrictlySorted(b)
    requires (forall x | x in Elements(a) :: x < low) && (forall x | x in Elements(b) :: low <= x)
    ensures StrictlySorted(a + b)
  {
    forall i, j | 0 <= i < j < |a + b| ensures (a + b)[i] < (a + b)[j] {
      if i < |a| <= j { assert a[i] in Elements(a) && b[j - |a|] in Elements(b); }
    }
  }

  lemma {:induction false} SortedCount(a: seq<nat>)
    requires StrictlySorted(a)
    ensures |Elements(a)| == |a|
    decreases |a|
  {
    if a == [] {
      assert Elements(a) == {};
    } else {
      SortedTail(a);
      SortedCount(a[1..]);
    }
  }
}
