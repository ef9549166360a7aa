/** The bidirectional cursor `graph::iterator`
    (include/gdwg/graph.hpp:487-631). A cursor is a position
    (source index, destination index, weight index) into the three levels of
    the storage; the end cursor is `src == |es|` with the inner positions
    reset. `Pos` is the offset of a position in the flat triple sequence. */
module Cursors {
  import opened SortedMap
  import opened Triples
  import opened Adjacency

  datatype Cursor = Cursor(src: nat, dst: nat, wt: nat)

  function End(es: Edges): Cursor
  {
    Cursor(|es|, 0, 0)
  }

  /** The first source's first destination's first weight, or the end
      cursor when no edge is stored. */
  function Begin(es: Edges): (r: Cursor)
    ensures WellFormed(es) ==> ValidCursor(es, r)
    ensures WellFormed(es) ==> (r == End(es) <==> EdgeSet(es) == {})
  {
    if es == [] then End(es)
    else
      assert WellFormed(es) ==> Deref(es, Cursor(0, 0, 0)) in EdgeSet(es) by {
        if WellFormed(es) {
          assert es[0] in es && es[0].val[0] in es[0].val;
        }
      }
      Cursor(0, 0, 0)
  }

  /** The cursor denotes a stored weight. */
  predicate AtEdge(es: Edges, c: Cursor)
  {
    && c.src < |es|
    && c.dst < |es[c.src].val|
    && c.wt < |es[c.src].val[c.dst].val|
  }

  predicate ValidCursor(es: Edges, c: Cursor)
  {
    AtEdge(es, c) || c == End(es)
  }

  /** `operator*`: the (from, to, weight) triple at the cursor. */
  function Deref(es: Edges, c: Cursor): (r: Triple)
    requires AtEdge(es, c)
    ensures KeysUnique(es) ==> r in EdgeSet(es)
  {
    var e := es[c.src];
    var t := Triple(e.key, e.val[c.dst].key, e.val[c.dst].val[c.wt]);
    assert KeysUnique(es) ==> t in EdgeSet(es) by {
      if KeysUnique(es) {
        assert e in es && e.val[c.dst] in e.val;
        GetFindsEntry(es, e);
        GetFindsEntry(e.val, e.val[c.dst]);
        EdgeSetLookup(es, t.from, t.to, t.weight);
      }
    }
    t
  }

  /** `operator++`: the next weight of this destination; else the first weight
      of the next destination; else the first weight of the next source; else
      the end cursor. */
  function Next(es: Edges, c: Cursor): (r: Cursor)
    requires WellFormed(es) && AtEdge(es, c)
    ensures ValidCursor(es, r)
  {
    var dm := es[c.src].val;
    assert es[c.src] in es;
    if c.wt + 1 < |dm[c.dst].val| then Cursor(c.src, c.dst, c.wt + 1)
    else if c.dst + 1 < |dm| then
      assert dm[c.dst + 1] in dm;
      Cursor(c.src, c.dst + 1, 0)
    else if c.src + 1 < |es| then
      assert es[c.src + 1] in es;
      assert es[c.src + 1].val[0] in es[c.src + 1].val;
      Cursor(c.src + 1, 0, 0)
    else End(es)
  }

  function LastOf(es: Edges, i: nat): (r: Cursor)
    requires WellFormed(es) && i < |es|
    ensures AtEdge(es, r) && r.src == i
  {
    assert es[i] in es;
    var j := |es[i].val| - 1;
    assert es[i].val[j] in es[i].val;
    Cursor(i, j, |es[i].val[j].val| - 1)
  }

  /** `operator--`: from the end cursor, the last stored triple; at the first
      weight of the first destination of a source, the last triple of the
      previous source; at the first weight of a later destination, the last
      weight of the previous destination; otherwise the previous weight.
      Decrementing the begin cursor is undefined and is excluded. */
  function Prev(es: Edges, c: Cursor): (r: Cursor)
    requires WellFormed(es) && ValidCursor(es, c) && c != Begin(es)
    ensures AtEdge(es, r)
  {
    if c == End(es) then LastOf(es, |es| - 1)
    else if c.dst == 0 && c.wt == 0 then LastOf(es, c.src - 1)
    else if c.wt == 0 then
      var dm := es[c.src].val;
      assert es[c.src] in es && dm[c.dst - 1] in dm;
      Cursor(c.src, c.dst - 1, |dm[c.dst - 1].val| - 1)
    else Cursor(c.src, c.dst, c.wt - 1)
  }

  /** The offset of the cursor in `Flat(es)`; the end cursor sits one past
      the last triple. */
  ghost function Pos(es: Edges, c: Cursor): (r: nat)
    requires ValidCursor(es, c)
    ensures r <= |Flat(es)|
    ensures AtEdge(es, c) ==> r < |Flat(es)|
  {
    if AtEdge(es, c) then
      var e := es[c.src];
      FlatSplit(es, c.src);
      FlatDstsSplit(e.key, e.val, c.dst);
      |Flat(es[..c.src])| + |FlatDsts(e.key, e.val[..c.dst])| + c.wt
    else |Flat(es)|
  }

  lemma FlatDstsCons(s: Node, e: Entry<WeightSet>, rest: DstMap)
    ensures FlatDsts(s, [e] + rest) == WeightTriples(s, e.key, e.val) + FlatDsts(s, rest)
  {
    assert ([e] + rest)[1..] == rest;
  }

  lemma FlatSplit(es: Edges, i: nat)
    requires i < |es|
    ensures Flat(es) == Flat(es[..i]) + FlatDsts(es[i].key, es[i].val) + Flat(es[i + 1..])
    ensures Flat(es[..i + 1]) == Flat(es[..i]) + FlatDsts(es[i].key, es[i].val)
  {
    FlatPrefixStep(es, i);
    assert es == es[..i + 1] + es[i + 1..];
    FlatAppend(es[..i + 1], es[i + 1..]);
  }

  lemma FlatPrefixStep(es: Edges, i: nat)
    requires i < |es|
    ensures Flat(es[..i + 1]) == Flat(es[..i]) + FlatDsts(es[i].key, es[i].val)
  {
    var e := es[i];
    assert es[..i + 1] == es[..i] + [e];
    FlatAppend(es[..i], [e]);
    assert Flat([e]) == FlatDsts(e.key, e.val) + Flat([]);
  }

  lemma FlatDstsSplit(s: Node, dm: DstMap, j: nat)
    requires j < |dm|
    ensures FlatDsts(s, dm) == FlatDsts(s, dm[..j]) + WeightTriples(s, dm[j].key, dm[j].val) + FlatDsts(s, dm[j + 1..])
    ensures FlatDsts(s, dm[..j + 1]) == FlatDsts(s, dm[..j]) + WeightTriples(s, dm[j].key, dm[j].val)
  {
    var e := dm[j];
    assert dm == dm[..j] + ([e] + dm[j + 1..]);
    FlatDstsAppend(s, dm[..j], [e] + dm[j + 1..]);
    FlatDstsCons(s, e, dm[j + 1..]);
    assert dm[..j + 1] == dm[..j] + ([e] + []);
    FlatDstsAppend(s, dm[..j], [e] + []);
    FlatDstsCons(s, e, []);
  }

  lemma FlatPrefixMonotone(es: Edges, a: nat, b: nat)
    requires a <= b <= |es|
    ensures |Flat(es[..a])| <= |Flat(es[..b])|
  {
    assert es[..b] == es[..a] + es[a..b];
    FlatAppend(es[..a], es[a..b]);
  }

  lemma FlatDstsPrefixMonotone(s: Node, dm: DstMap, a: nat, b: nat)
    requires a <= b <= |dm|
    ensures |FlatDsts(s, dm[..a])| <= |FlatDsts(s, dm[..b])|
  {
    assert dm[..b] == dm[..a] + dm[a..b];
    FlatDstsAppend(s, dm[..a], dm[a..b]);
  }

  /** A cursor's offset lies inside the block of its destination, which lies
      inside the block of its source. */
  lemma PosInBlock(es: Edges, c: Cursor)
    requires AtEdge(es, c)
    ensures |Flat(es[..c.src])| + |FlatDsts(es[c.src].key, es[c.src].val[..c.dst])| <= Pos(es, c)
    ensures Pos(es, c) < |Flat(es[..c.src])| + |FlatDsts(es[c.src].key, es[c.src].val[..c.dst + 1])|
    ensures Pos(es, c) < |Flat(es[..c.src + 1])|
  {
    var e := es[c.src];
    FlatSplit(es, c.src);
    FlatDstsSplit(e.key, e.val, c.dst);
    FlatDstsPrefixMonotone(e.key, e.val, c.dst + 1, |e.val|);
    assert e.val[..|e.val|] == e.val;
  }

  /** `operator*` reads the triple at the cursor's offset in the flat
      sequence. */
  lemma DerefAtPos(es: Edges, c: Cursor)
    requires AtEdge(es, c)
    ensures Pos(es, c) < |Flat(es)|
    ensures Flat(es)[Pos(es, c)] == Deref(es, c)
  {
    var e := es[c.src];
    FlatSplit(es, c.src);
    FlatDstsSplit(e.key, e.val, c.dst);
    var a := |Flat(es[..c.src])|;
    var b := |FlatDsts(e.key, e.val[..c.dst])|;
    var block := FlatDsts(e.key, e.val);
    assert block[b + c.wt] == WeightTriples(e.key, e.val[c.dst].key, e.val[c.dst].val)[c.wt];
    assert Flat(es)[a + b + c.wt] == block[b + c.wt];
  }

  /** Cursors in lexicographic position order, the end cursor last. */
  predicate Before(c1: Cursor, c2: Cursor)
  {
    || c1.src < c2.src
    || (c1.src == c2.src && c1.dst < c2.dst)
    || (c1.src == c2.src && c1.dst == c2.dst && c1.wt < c2.wt)
  }

  lemma PosOrdered(es: Edges, c1: Cursor, c2: Cursor)
    requires ValidCursor(es, c1) && ValidCursor(es, c2)
    requires Before(c1, c2)
    ensures Pos(es, c1) < Pos(es, c2)
  {
    assert AtEdge(es, c1);
    PosInBlock(es, c1);
    if !AtEdge(es, c2) {
      DerefAtPos(es, c1);
    } else {
      PosInBlock(es, c2);
      if c1.src < c2.src {
        FlatPrefixMonotone(es, c1.src + 1, c2.src);
      } else if c1.dst < c2.dst {
        FlatDstsPrefixMonotone(es[c1.src].key, es[c1.src].val, c1.dst + 1, c2.dst);
      }
    }
  }

  /** Distinct valid cursors sit at distinct offsets. */
  lemma PosInjective(es: Edges, c1: Cursor, c2: Cursor)
    requires ValidCursor(es, c1) && ValidCursor(es, c2)
    requires Pos(es, c1) == Pos(es, c2)
    ensures c1 == c2
  {
    if Before(c1, c2) {
      PosOrdered(es, c1, c2);
    } else if Before(c2, c1) {
      PosOrdered(es, c2, c1);
    }
  }

  /** `begin()` is a valid cursor at offset 0, and it equals `end()` exactly
      when no edge is stored. */
  lemma BeginAtZero(es: Edges)
    requires WellFormed(es)
    ensures ValidCursor(es, Begin(es))
    ensures Pos(es, Begin(es)) == 0
    ensures Begin(es) == End(es) <==> Flat(es) == []
  {
    if es != [] {
      assert es[0] in es;
      assert es[0].val[0] in es[0].val;
      assert es[..0] == [] && es[0].val[..0] == [];
      DerefAtPos(es, Begin(es));
    }
  }

  lemma EndAtLength(es: Edges)
    ensures ValidCursor(es, End(es)) && Pos(es, End(es)) == |Flat(es)|
  {
  }

  /** The last triple of source `i` sits just before the end of that
      source's block. */
  lemma LastOfEndsBlock(es: Edges, i: nat)
    requires WellFormed(es) && i < |es|
    ensures Pos(es, LastOf(es, i)) + 1 == |Flat(es[..i + 1])|
  {
    var r := LastOf(es, i);
    var dm := es[i].val;
    FlatSplit(es, i);
    FlatDstsSplit(es[i].key, dm, r.dst);
    assert dm[..r.dst + 1] == dm;
  }

  /** The first triple of source `i` sits at the start of that source's
      block. */
  lemma SourceStart(es: Edges, i: nat)
    requires AtEdge(es, Cursor(i, 0, 0))
    ensures Pos(es, Cursor(i, 0, 0)) == |Flat(es[..i])|
  {
    assert es[i].val[..0] == [];
  }

  /** Moving from the last weight of destination `j` to the first weight of
      destination `j + 1` of the same source advances by one. */
  lemma DestinationStep(es: Edges, c: Cursor)
    requires AtEdge(es, c) && AtEdge(es, Cursor(c.src, c.dst + 1, 0))
    requires c.wt + 1 == |es[c.src].val[c.dst].val|
    ensures Pos(es, c) + 1 == Pos(es, Cursor(c.src, c.dst + 1, 0))
  {
    FlatDstsSplit(es[c.src].key, es[c.src].val, c.dst);
  }

  /** `++` moves exactly one triple forward in the flat sequence. */
  lemma NextAdvances(es: Edges, c: Cursor)
    requires WellFormed(es) && AtEdge(es, c)
    ensures Pos(es, Next(es, c)) == Pos(es, c) + 1
  {
    var dm := es[c.src].val;
    if c.wt + 1 < |dm[c.dst].val| {
    } else if c.dst + 1 < |dm| {
      DestinationStep(es, c);
    } else {
      assert c == LastOf(es, c.src);
      LastOfEndsBlock(es, c.src);
      if c.src + 1 < |es| {
        SourceStart(es, c.src + 1);
      } else {
        assert es[..c.src + 1] == es;
      }
    }
  }

  /** `--` moves exactly one triple back in the flat sequence. */
  lemma PrevRetreats(es: Edges, c: Cursor)
    requires WellFormed(es) && ValidCursor(es, c) && c != Begin(es)
    ensures Pos(es, Prev(es, c)) + 1 == Pos(es, c)
  {
    if c == End(es) {
      PrevFromEnd(es);
    } else if c.dst == 0 && c.wt == 0 {
      PrevFromSourceStart(es, c.src);
    } else if c.wt == 0 {
      PrevFromDestinationStart(es, c);
    }
  }

  lemma PrevFromEnd(es: Edges)
    requires WellFormed(es) && es != []
    ensures Pos(es, LastOf(es, |es| - 1)) + 1 == Pos(es, End(es))
  {
    LastOfEndsBlock(es, |es| - 1);
    assert es[..|es|] == es;
  }

  lemma PrevFromSourceStart(es: Edges, i: nat)
    requires WellFormed(es) && 0 < i && AtEdge(es, Cursor(i, 0, 0))
    ensures Pos(es, LastOf(es, i - 1)) + 1 == Pos(es, Cursor(i, 0, 0))
  {
    LastOfEndsBlock(es, i - 1);
    SourceStart(es, i);
  }

  lemma PrevFromDestinationStart(es: Edges, c: Cursor)
    requires WellFormed(es) && AtEdge(es, c) && 0 < c.dst && c.wt == 0
    ensures var dm := es[c.src].val;
      && dm[c.dst - 1].val != []
      && Pos(es, Cursor(c.src, c.dst - 1, |dm[c.dst - 1].val| - 1)) + 1 == Pos(es, c)
  {
    var dm := es[c.src].val;
    assert es[c.src] in es && dm[c.dst - 1] in dm;
    DestinationStep(es, Cursor(c.src, c.dst - 1, |dm[c.dst - 1].val| - 1));
  }

  /** `--` undoes `++` on every non-end cursor. */
  lemma PrevOfNext(es: Edges, c: Cursor)
    requires WellFormed(es) && AtEdge(es, c)
    ensures Next(es, c) != Begin(es)
    ensures Prev(es, Next(es, c)) == c
  {
    NextAdvances(es, c);
    BeginAtZero(es);
    PrevRetreats(es, Next(es, c));
    PosInjective(es, Prev(es, Next(es, c)), c);
  }

  /** `++` undoes `--` on every cursor other than `begin()`. */
  lemma NextOfPrev(es: Edges, c: Cursor)
    requires WellFormed(es) && ValidCursor(es, c) && c != Begin(es)
    ensures Next(es, Prev(es, c)) == c
  {
    PrevRetreats(es, c);
    NextAdvances(es, Prev(es, c));
    PosInjective(es, Next(es, Prev(es, c)), c);
  }

  /** The cursor reached from `c` by `n` increments. */
  ghost function Iterate(es: Edges, c: Cursor, n: nat): (r: Cursor)
    requires WellFormed(es) && ValidCursor(es, c)
    requires Pos(es, c) + n <= |Flat(es)|
    ensures ValidCursor(es, r)
    ensures Pos(es, r) == Pos(es, c) + n
    decreases n
  {
    if n == 0 then c
    else
      assert AtEdge(es, c);
      NextAdvances(es, c);
      Iterate(es, Next(es, c), n - 1)
  }

  /** Incrementing from `begin()` visits the stored triples in ascending
      order, each once, and arrives at `end()` after the last. */
  lemma TraversalFromBegin(es: Edges)
    requires WellFormed(es)
    ensures StrictlySorted(Flat(es))
    ensures forall n :: 0 <= n < |Flat(es)| ==>
      AtEdge(es, Iterate(es, Begin(es), n)) && Deref(es, Iterate(es, Begin(es), n)) == Flat(es)[n]
    ensures Iterate(es, Begin(es), |Flat(es)|) == End(es)
  {
    FlatSorted(es);
    BeginAtZero(es);
    forall n | 0 <= n < |Flat(es)|
      ensures AtEdge(es, Iterate(es, Begin(es), n)) && Deref(es, Iterate(es, Begin(es), n)) == Flat(es)[n]
    {
      IterateReads(es, n);
    }
    PosInjective(es, Iterate(es, Begin(es), |Flat(es)|), End(es));
  }

  lemma IterateReads(es: Edges, n: nat)
    requires WellFormed(es) && n < |Flat(es)|
    ensures AtEdge(es, Iterate(es, Begin(es), n)) && Deref(es, Iterate(es, Begin(es), n)) == Flat(es)[n]
  {
    BeginAtZero(es);
    var c := Iterate(es, Begin(es), n);
    assert AtEdge(es, c);
    DerefAtPos(es, c);
  }
}
