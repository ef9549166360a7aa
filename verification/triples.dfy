/** The externally visible projection of an edge (`graph::value_type`) and
    the lexicographic order in which the cursor produces edges. */
module Triples {

  datatype Triple = Triple(from: int, to: int, weight: int)

  /** Ascending by source, then destination, then weight. */
  predicate Less(a: Triple, b: Triple)
  {
    || a.from < b.from
    || (a.from == b.from && a.to < b.to)
    || (a.from == b.from && a.to == b.to && a.weight < b.weight)
  }

  predicate StrictlySorted(s: seq<Triple>)
  {
    forall i, j :: 0 <= i < j < |s| ==> Less(s[i], s[j])
  }

  /** Two sorted runs whose every element of the first precedes every element
      of the second concatenate to a sorted run. */
  lemma SortedConcat(a: seq<Triple>, b: seq<Triple>)
    requires StrictlySorted(a) && StrictlySorted(b)
    requires forall x, y :: x in a && y in b ==> Less(x, y)
    ensures StrictlySorted(a + b)
  {
    forall i, j | 0 <= i < j < |a + b|
      ensures Less((a + b)[i], (a + b)[j])
    {
      if i < |a| && |a| <= j {
        assert a[i] in a && b[j - |a|] in b;
      }
    }
  }

  // HeadIsLeast, HeadIsMember and SameElementsSameSeq restate for `Less` on
  // triples the lemmas of the same names that SortedSeq proves for `<` on
  // node values; the two orders are different relations on different types.

  /** Every element of a strictly sorted run after its head is greater than it. */
  lemma HeadIsLeast(s: seq<Triple>)
    requires StrictlySorted(s) && s != []
    ensures forall x :: x in s[1..] ==> Less(s[0], x)
  {
    forall x | x in s[1..]
      ensures Less(s[0], x)
    {
      var i :| 0 <= i < |s[1..]| && s[1..][i] == x;
      assert s[i + 1] == x;
    }
  }

  lemma HeadOrTail(s: seq<Triple>, x: Triple)
    requires x in s
    ensures s != [] && (x == s[0] || x in s[1..])
  {
    assert s == [s[0]] + s[1..];
  }

  lemma HeadIsMember(s: seq<Triple>)
    ensures s != [] ==> s[0] in s
  {
  }

  /** A strictly sorted sequence of triples is determined by its elements. */
  lemma {:induction false} SameElementsSameSeq(a: seq<Triple>, b: seq<Triple>)
    requires StrictlySorted(a) && StrictlySorted(b)
    requires forall t :: t in a <==> t in b
    ensures a == b
  {
    if a == [] {
      HeadIsMember(b);
    } else {
      HeadIsMember(a);
      HeadIsMember(b);
      HeadIsLeast(a);
      HeadIsLeast(b);
      assert a[0] == b[0] by {
        HeadOrTail(b, a[0]);
        HeadOrTail(a, b[0]);
      }
      forall t
        ensures t in a[1..] <==> t in b[1..]
      {
        if t in a[1..] {
          assert t in a && t != a[0];
        }
        if t in b[1..] {
          assert t in b && t != b[0];
        }
      }
      SameElementsSameSeq(a[1..], b[1..]);
      assert a == [a[0]] + a[1..];
      assert b == [b[0]] + b[1..];
    }
  }

  /** A strictly sorted sequence holds each value at one index only. */
  lemma SortedIndexUnique(s: seq<Triple>, i: nat, j: nat)
    requires StrictlySorted(s) && i < |s| && j < |s|
    requires s[i] == s[j]
    ensures i == j
  {
  }

  /** Dropping the element at `p` from a strictly sorted sequence keeps it
      sorted and removes exactly that value. */
  lemma SpliceSorted(s: seq<Triple>, p: nat)
    requires StrictlySorted(s) && p < |s|
    ensures StrictlySorted(s[..p] + s[p + 1..])
    ensures forall t :: t in s[..p] + s[p + 1..] <==> t in s && t != s[p]
  {
    var r := s[..p] + s[p + 1..];
    assert |r| == |s| - 1;
    assert forall k :: 0 <= k < |r| ==> r[k] == if k < p then s[k] else s[k + 1];
    forall t
      ensures t in r <==> t in s && t != s[p]
    {
      if t in r {
        var k :| 0 <= k < |r| && r[k] == t;
        if k < p {
          assert Less(s[k], s[p]);
        } else {
          assert Less(s[p], s[k + 1]);
        }
      }
      if t in s && t != s[p] {
        var k :| 0 <= k < |s| && s[k] == t;
        if k < p {
          assert r[k] == t;
        } else {
          assert r[k - 1] == t;
        }
      }
    }
  }
}
