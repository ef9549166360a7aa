/** A strictly increasing sequence of integers: the value model of a
    `std::set` ordered by the value a pointer refers to (the node set `nodes_`
    and every weight set of the adjacency). */
module SortedSeq {

  predicate Increasing(xs: seq<int>)
  {
    forall i, j :: 0 <= i < j < |xs| ==> xs[i] < xs[j]
  }

  /** Every element of an increasing sequence is at least its head. */
  lemma HeadIsLeast(xs: seq<int>)
    requires Increasing(xs) && xs != []
    ensures forall x :: x in xs ==> xs[0] <= x
    ensures forall x :: x in xs[1..] ==> xs[0] < x
  {
    forall x | x in xs[1..]
      ensures xs[0] < x
    {
      var i :| 0 <= i < |xs[1..]| && xs[1..][i] == x;
      assert xs[i + 1] == x;
    }
  }

  lemma ConsIncreasing(x: int, rest: seq<int>)
    requires Increasing(rest)
    requires forall y :: y in rest ==> x < y
    ensures Increasing([x] + rest)
  {
    forall i, j | 0 <= i < j < |[x] + rest|
      ensures ([x] + rest)[i] < ([x] + rest)[j]
    {
      if i == 0 {
        assert rest[j - 1] in rest;
      }
    }
  }

  /** `std::set::insert`: adds `v` unless an equal element is already there. */
  function Insert(xs: seq<int>, v: int): (r: seq<int>)
    requires Increasing(xs)
    ensures Increasing(r)
    ensures forall x :: x in r <==> x in xs || x == v
    ensures v in xs ==> r == xs
    ensures v !in xs ==> |r| == |xs| + 1
  {
    if xs == [] then [v]
    else if v < xs[0] then
      HeadIsLeast(xs);
      ConsIncreasing(v, xs);
      [v] + xs
    else if v == xs[0] then xs
    else
      var rest := Insert(xs[1..], v);
      HeadIsLeast(xs);
      ConsIncreasing(xs[0], rest);
      assert xs == [xs[0]] + xs[1..];
      [xs[0]] + rest
  }

  /** `std::set::erase` by value: drops `v` if present. */
  function Remove(xs: seq<int>, v: int): (r: seq<int>)
    requires Increasing(xs)
    ensures Increasing(r)
    ensures forall x :: x in r <==> x in xs && x != v
    ensures v !in xs ==> r == xs
    ensures v in xs ==> |r| == |xs| - 1
  {
    if xs == [] then []
    else if xs[0] == v then
      HeadIsLeast(xs);
      assert xs == [xs[0]] + xs[1..];
      xs[1..]
    else
      var rest := Remove(xs[1..], v);
      HeadIsLeast(xs);
      ConsIncreasing(xs[0], rest);
      assert xs == [xs[0]] + xs[1..];
      [xs[0]] + rest
  }

  lemma HeadIsMember(xs: seq<int>)
    ensures xs != [] ==> xs[0] in xs
  {
  }

  /** A strictly increasing sequence is determined by its elements: two sets
      with the same members enumerate identically. */
  lemma {:induction false} SameElementsSameSeq(a: seq<int>, b: seq<int>)
    requires Increasing(a) && Increasing(b)
    requires forall x :: x in a <==> x in b
    ensures a == b
  {
    if a == [] {
      HeadIsMember(b);
    } else {
      assert a[0] in a;
      assert b != [];
      assert b[0] in b;
      assert a[0] == b[0] by {
        assert a[0] in b;
        assert b[0] in a;
      }
      forall x
        ensures x in a[1..] <==> x in b[1..]
      {
        if x in a[1..] {
          assert x in a && x != a[0];
        }
        if x in b[1..] {
          assert x in b && x != b[0];
        }
      }
      SameElementsSameSeq(a[1..], b[1..]);
      assert a == [a[0]] + a[1..];
      assert b == [b[0]] + b[1..];
    }
  }
}
