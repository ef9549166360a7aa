/** The cursor-driven members of `gdwg::graph`: full traversal in either
    direction, `find`, `erase_edge(iterator)`, `erase_edge(iterator,
    iterator)` and `operator==`, written as loops over `Next` and `Prev` the
    way the C++ walks its iterators. */
module Traversal {
  import opened Results
  import opened Triples
  import opened Adjacency
  import opened Cursors
  import opened EdgeOps
  import opened Gdwg

  lemma TakeOneMore(f: seq<Triple>, p: nat)
    requires p < |f|
    ensures f[..p + 1] == f[..p] + [f[p]]
  {
  }

  lemma DropOneLess(f: seq<Triple>, p: nat)
    requires p < |f|
    ensures f[p..] == [f[p]] + f[p + 1..]
  {
  }

  /** `for (it = g.begin(); it != g.end(); ++it)`: the triples in the order
      the cursor yields them are the strictly ascending enumeration of the
      edge set. */
  method Forward(g: Graph) returns (out: seq<Triple>)
    requires Valid(g)
    ensures out == Flat(g.edges)
    ensures StrictlySorted(out)
    ensures forall t :: t in out <==> t in EdgeSet(g.edges)
  {
    var es := g.edges;
    BeginAtZero(es);
    EndAtLength(es);
    FlatSorted(es);
    var c := Begin(es);
    out := [];
    while c != End(es)
      invariant ValidCursor(es, c)
      invariant Pos(es, c) <= |Flat(es)|
      invariant out == Flat(es)[..Pos(es, c)]
      decreases |Flat(es)| - Pos(es, c)
    {
      DerefAtPos(es, c);
      NextAdvances(es, c);
      TakeOneMore(Flat(es), Pos(es, c));
      out := out + [Deref(es, c)];
      c := Next(es, c);
    }
    assert Flat(es)[..|Flat(es)|] == Flat(es);
  }

  /** `for (it = g.end(); it != g.begin(); ) { --it; ... }`: walking back
      from `end()` yields the same triples, last first. */
  method Backward(g: Graph) returns (out: seq<Triple>)
    requires Valid(g)
    ensures out == Flat(g.edges)
  {
    var es := g.edges;
    BeginAtZero(es);
    EndAtLength(es);
    var c := End(es);
    out := [];
    while c != Begin(es)
      invariant ValidCursor(es, c)
      invariant out == Flat(es)[Pos(es, c)..]
      decreases Pos(es, c)
    {
      PrevRetreats(es, c);
      var b := Prev(es, c);
      DerefAtPos(es, b);
      DropOneLess(Flat(es), Pos(es, b));
      out := [Deref(es, b)] + out;
      c := b;
    }
  }

  /** The scan behind `find`: walks from `begin()` until it reads `t`,
      stopping at `end()` when `t` is not stored. */
  method Scan(es: Edges, t: Triple) returns (c: Cursor)
    requires WellFormed(es)
    ensures ValidCursor(es, c)
    ensures c == End(es) <==> t !in EdgeSet(es)
    ensures c != End(es) ==> Deref(es, c) == t
  {
    BeginAtZero(es);
    EndAtLength(es);
    c := Begin(es);
    while c != End(es) && Deref(es, c) != t
      invariant ValidCursor(es, c)
      invariant forall k :: 0 <= k < Pos(es, c) ==> Flat(es)[k] != t
      decreases |Flat(es)| - Pos(es, c)
    {
      DerefAtPos(es, c);
      NextAdvances(es, c);
      c := Next(es, c);
    }
    if c != End(es) {
      DerefAtPos(es, c);
    }
  }

  /** `find`: never fails; the cursor at the triple when it is stored and
      `end()` otherwise. */
  method Find(g: Graph, s: Node, d: Node, w: Weight) returns (c: Cursor)
    requires Valid(g)
    ensures ValidCursor(g.edges, c)
    ensures c == End(g.edges) <==> Triple(s, d, w) !in EdgeSet(g.edges)
    ensures c != End(g.edges) ==> Deref(g.edges, c) == Triple(s, d, w)
  {
    c := Scan(g.edges, Triple(s, d, w));
  }

  /** After one triple leaves the edge set, the enumeration loses exactly
      that position. */
  lemma FlatAfterErase(es: Edges, es2: Edges, p: nat)
    requires WellFormed(es) && WellFormed(es2)
    requires p < |Flat(es)|
    requires EdgeSet(es2) == EdgeSet(es) - {Flat(es)[p]}
    ensures Flat(es2) == Flat(es)[..p] + Flat(es)[p + 1..]
  {
    FlatSorted(es);
    FlatSorted(es2);
    SpliceSorted(Flat(es), p);
    forall t
      ensures t in Flat(es2) <==> t in Flat(es)[..p] + Flat(es)[p + 1..]
    {
      assert t in EdgeSet(es2) <==> t in Flat(es2);
      assert t in EdgeSet(es) <==> t in Flat(es);
    }
    SameElementsSameSeq(Flat(es2), Flat(es)[..p] + Flat(es)[p + 1..]);
  }

  /** The triple after the erased one survives the erasure and moves down
      into the erased triple's position. */
  lemma FollowerShifts(es: Edges, es2: Edges, c: Cursor)
    requires WellFormed(es) && AtEdge(es, c) && AtEdge(es, Next(es, c))
    requires Flat(es2) == Flat(es)[..Pos(es, c)] + Flat(es)[Pos(es, c) + 1..]
    ensures Pos(es, c) < |Flat(es2)|
    ensures Flat(es2)[Pos(es, c)] == Deref(es, Next(es, c))
    ensures Deref(es, Next(es, c)) in EdgeSet(es2)
  {
    NextAdvances(es, c);
    DerefAtPos(es, Next(es, c));
    assert Flat(es2)[Pos(es, c)] in Flat(es2);
  }

  /** A cursor that reads the triple at offset `i` sits at offset `i`. */
  lemma PosOfDeref(es: Edges, c: Cursor, i: nat)
    requires WellFormed(es) && AtEdge(es, c)
    requires i < |Flat(es)| && Flat(es)[i] == Deref(es, c)
    ensures Pos(es, c) == i
  {
    DerefAtPos(es, c);
    FlatSorted(es);
    SortedIndexUnique(Flat(es), Pos(es, c), i);
  }

  /** The storage half of `erase_edge(iterator)`: the triple at the cursor
      goes, and the returned cursor denotes the triple that followed it. */
  method EraseAt(es: Edges, c: Cursor) returns (r: Edges, next: Cursor)
    requires WellFormed(es) && ValidCursor(es, c)
    ensures WellFormed(r) && ValidCursor(r, next)
    ensures c == End(es) ==> r == es && next == End(r)
    ensures c != End(es) ==>
      && Deref(es, c) in EdgeSet(es)
      && r == RemoveEdge(es, Deref(es, c).from, Deref(es, c).to, Deref(es, c).weight)
      && Flat(r) == Flat(es)[..Pos(es, c)] + Flat(es)[Pos(es, c) + 1..]
      && Pos(r, next) == Pos(es, c)
  {
    if c == End(es) {
      return es, End(es);
    }
    var t := Deref(es, c);
    var after := Next(es, c);
    DerefAtPos(es, c);
    assert t in EdgeSet(es);
    r := RemoveEdge(es, t.from, t.to, t.weight);
    FlatAfterErase(es, r, Pos(es, c));
    if after == End(es) {
      NextAdvances(es, c);
      EndAtLength(r);
      next := End(r);
    } else {
      FollowerShifts(es, r, c);
      next := Scan(r, Deref(es, after));
      PosOfDeref(r, next, Pos(es, c));
    }
  }

  /** Fewer edges cannot reach outside the node registry. */
  lemma EndpointsShrink(nodes: seq<Node>, es: Edges, es2: Edges)
    requires EndpointsIn(nodes, es) && EdgeSet(es2) <= EdgeSet(es)
    ensures EndpointsIn(nodes, es2)
  {
  }

  /** `erase_edge(iterator)`: `end()` is returned for `end()`; otherwise it
      is `erase_edge` on the triple at the cursor, and the result denotes the
      triple that followed it, which now sits at the same position. */
  method EraseEdgeAt(g: Graph, c: Cursor) returns (r: Graph, next: Cursor)
    requires Valid(g) && ValidCursor(g.edges, c)
    ensures Valid(r) && r.nodes == g.nodes
    ensures ValidCursor(r.edges, next)
    ensures c == End(g.edges) ==> r == g && next == End(r.edges)
    ensures c != End(g.edges) ==>
      && EraseEdge(g, Deref(g.edges, c).from, Deref(g.edges, c).to, Deref(g.edges, c).weight) == Ok((r, true))
      && Flat(r.edges) == Flat(g.edges)[..Pos(g.edges, c)] + Flat(g.edges)[Pos(g.edges, c) + 1..]
      && Pos(r.edges, next) == Pos(g.edges, c)
  {
    var es, nx := EraseAt(g.edges, c);
    next := nx;
    if c == End(g.edges) {
      r := g;
    } else {
      var t := Deref(g.edges, c);
      assert IsNode(g, t.from) && IsNode(g, t.to);
      EdgeSetLookup(g.edges, t.from, t.to, t.weight);
      var res := EraseEdge(g, t.from, t.to, t.weight);
      assert res == Ok((Graph(g.nodes, es), true));
      r := res.value.0;
    }
  }

  /** `f` with the `k` elements from offset `p` cut out. */
  ghost function Without(f: seq<Triple>, p: nat, k: nat): (r: seq<Triple>)
    requires p + k <= |f|
    ensures |r| == |f| - k
  {
    f[..p] + f[p + k..]
  }

  lemma WithoutNothing(f: seq<Triple>, p: nat)
    requires p <= |f|
    ensures Without(f, p, 0) == f
  {
    assert f[..p] + f[p..] == f;
  }

  /** Erasing at offset `p` from a sequence already missing `f[p..p + k]`
      leaves it missing `f[p..p + k + 1]`. */
  lemma SpliceStep(f: seq<Triple>, before: seq<Triple>, p: nat, k: nat)
    requires p + k < |f| && before == Without(f, p, k)
    ensures before[..p] + before[p + 1..] == Without(f, p, k + 1)
  {
    assert before[..p] == f[..p];
    assert before[p + 1..] == f[p + k + 1..];
  }

  /** While the range erasure has not reached `last`, there is something
      left to erase before it. */
  lemma RangeContinues(f: seq<Triple>, fr: seq<Triple>, p: nat, k: nat, q: nat, stopAtEnd: bool)
    requires p + k <= q <= |f| && fr == Without(f, p, k)
    requires p < |fr|
    requires stopAtEnd ==> q == |f|
    requires !stopAtEnd ==> q < |f| && fr[p] != f[q]
    ensures p + k < q
  {
    assert fr[p] == f[p + k];
  }

  /** When the range erasure stops, it has erased exactly up to `last`. */
  lemma RangeStops(f: seq<Triple>, fr: seq<Triple>, p: nat, k: nat, q: nat, stopAtEnd: bool)
    requires StrictlySorted(f)
    requires p + k <= q <= |f| && fr == Without(f, p, k)
    requires stopAtEnd <==> q == |f|
    requires p == |fr| || (p < |fr| && !stopAtEnd && fr[p] == f[q])
    ensures fr == f[..p] + f[q..]
  {
    if p < |fr| {
      assert fr[p] == f[p + k];
      SortedIndexUnique(f, p + k, q);
    }
  }

  /** One round of the range erasure: with `f[p..p + k]` already gone, the
      next triple `f[p + k]` goes too. */
  method EraseStep(es: Edges, c: Cursor, ghost f: seq<Triple>, ghost p: nat, ghost k: nat)
    returns (r: Edges, next: Cursor)
    requires WellFormed(es) && AtEdge(es, c) && Pos(es, c) == p
    requires p + k < |f| && Flat(es) == Without(f, p, k)
    ensures WellFormed(r)
    ensures ValidCursor(r, next) && Pos(r, next) == p
    ensures Flat(r) == Without(f, p, k + 1)
  {
    r, next := EraseAt(es, c);
    SpliceStep(f, Flat(es), p, k);
  }

  /** The storage half of `erase_edge(first, last)`. The loop stops when the
      cursor reads `last`'s triple, or at `end()` when `last` is `end()`. */
  method EraseSpan(es: Edges, first: Cursor, last: Cursor) returns (r: Edges, c: Cursor)
    requires WellFormed(es) && ValidCursor(es, first) && ValidCursor(es, last)
    requires Pos(es, first) <= Pos(es, last)
    ensures WellFormed(r)
    ensures ValidCursor(r, c) && Pos(r, c) == Pos(es, first)
    ensures Flat(r) == Flat(es)[..Pos(es, first)] + Flat(es)[Pos(es, last)..]
  {
    ghost var f := Flat(es);
    ghost var p := Pos(es, first);
    ghost var q := Pos(es, last);
    var stopAtEnd := last == End(es);
    var target := if stopAtEnd then Triple(0, 0, 0) else Deref(es, last);
    EndAtLength(es);
    if !stopAtEnd {
      DerefAtPos(es, last);
    }
    FlatSorted(es);
    r, c := es, first;
    ghost var k: nat := 0;
    WithoutNothing(f, p);
    while c != End(r) && (stopAtEnd || Deref(r, c) != target)
      invariant WellFormed(r)
      invariant ValidCursor(r, c) && Pos(r, c) == p
      invariant p + k <= q
      invariant Flat(r) == Without(f, p, k)
      decreases q - k
    {
      DerefAtPos(r, c);
      RangeContinues(f, Flat(r), p, k, q, stopAtEnd);
      r, c := EraseStep(r, c, f, p, k);
      k := k + 1;
    }
    if c == End(r) {
      EndAtLength(r);
    } else {
      DerefAtPos(r, c);
    }
    RangeStops(f, Flat(r), p, k, q, stopAtEnd);
  }

  /** `erase_edge(first, last)`: erases from `first` up to but not including
      `last`, and returns the cursor that then denotes `last`'s triple. */
  method EraseRange(g: Graph, first: Cursor, last: Cursor) returns (r: Graph, c: Cursor)
    requires Valid(g) && ValidCursor(g.edges, first) && ValidCursor(g.edges, last)
    requires Pos(g.edges, first) <= Pos(g.edges, last)
    ensures Valid(r) && r.nodes == g.nodes
    ensures ValidCursor(r.edges, c) && Pos(r.edges, c) == Pos(g.edges, first)
    ensures Flat(r.edges) == Flat(g.edges)[..Pos(g.edges, first)] + Flat(g.edges)[Pos(g.edges, last)..]
  {
    var es, cur := EraseSpan(g.edges, first, last);
    assert EdgeSet(es) <= EdgeSet(g.edges);
    EndpointsShrink(g.nodes, g.edges, es);
    r, c := Graph(g.nodes, es), cur;
  }

  /** Two sequences that agree below the shorter one's length are equal
      exactly when their lengths are. */
  lemma AgreeUpTo(f1: seq<Triple>, f2: seq<Triple>, p: nat)
    requires p <= |f1| && p <= |f2| && (p == |f1| || p == |f2|)
    requires forall k :: 0 <= k < p ==> f1[k] == f2[k]
    ensures f1 == f2 <==> |f1| == |f2|
  {
    if |f1| == |f2| {
      assert f1 == f2;
    }
  }

  lemma AgreeOneMore(f1: seq<Triple>, f2: seq<Triple>, p: nat)
    requires p < |f1| && p < |f2| && f1[p] == f2[p]
    requires forall k :: 0 <= k < p ==> f1[k] == f2[k]
    ensures forall k :: 0 <= k < p + 1 ==> f1[k] == f2[k]
  {
  }

  /** Both traversals walked in lockstep; a mismatch, or one ending before
      the other, tells the sequences apart. */
  method SameTraversal(e1: Edges, e2: Edges) returns (b: bool)
    requires WellFormed(e1) && WellFormed(e2)
    ensures b <==> Flat(e1) == Flat(e2)
  {
    BeginAtZero(e1);
    BeginAtZero(e2);
    EndAtLength(e1);
    EndAtLength(e2);
    var c1, c2 := Begin(e1), Begin(e2);
    while c1 != End(e1) && c2 != End(e2)
      invariant ValidCursor(e1, c1) && ValidCursor(e2, c2)
      invariant Pos(e1, c1) == Pos(e2, c2)
      invariant forall k :: 0 <= k < Pos(e1, c1) ==> Flat(e1)[k] == Flat(e2)[k]
      decreases |Flat(e1)| - Pos(e1, c1)
    {
      DerefAtPos(e1, c1);
      DerefAtPos(e2, c2);
      if Deref(e1, c1) != Deref(e2, c2) {
        return false;
      }
      NextAdvances(e1, c1);
      NextAdvances(e2, c2);
      AgreeOneMore(Flat(e1), Flat(e2), Pos(e1, c1));
      c1, c2 := Next(e1, c1), Next(e2, c2);
    }
    AgreeUpTo(Flat(e1), Flat(e2), Pos(e1, c1));
    b := c1 == End(e1) && c2 == End(e2);
  }

  /** `operator==`: equal node sequences and equal traversals, length
      included. */
  method Equals(g1: Graph, g2: Graph) returns (b: bool)
    requires Valid(g1) && Valid(g2)
    ensures b <==> g1.nodes == g2.nodes && Flat(g1.edges) == Flat(g2.edges)
  {
    if g1.nodes != g2.nodes {
      return false;
    }
    b := SameTraversal(g1.edges, g2.edges);
  }
}
