/** Four members of `gdwg::graph` as the C++ is written, where the code
    departs from its own comments, its tests or the storage invariant. Each
    is paired with a concrete input that shows the departure; the rest of
    the model uses the corrected members in `Gdwg`, `EdgeOps` and
    `Traversal`. */
module AsWritten {
  import opened Results
  import SortedSeq
  import opened SortedMap
  import opened Triples
  import opened Adjacency
  import opened EdgeOps
  import opened Cursors
  import opened Gdwg

  /** The single edge 1 -> 2 as a valid graph. */
  lemma OneEdgeGraphValid()
    ensures Valid(Graph([1, 2], [Entry(1, [Entry(2, [5])])]))
    ensures EdgeSet([Entry(1, [Entry(2, [5])])]) == {Triple(1, 2, 5)}
  {
    var es := [Entry(1, [Entry(2, [5])])];
    assert Flat(es) == [Triple(1, 2, 5)];
  }

  // ---------------------------------------------- erase_edge erases the node

  /** `erase_edge(src, dst, weight)` as written: once `src` is left with no
      destination it calls `erase_node(src)`, which takes `src` out of the
      registry together with every edge into it. (`erase_node`'s own
      pruning gap, below, is set aside here.) */
  function EraseEdgeAsWritten(g: Graph, s: Node, d: Node, w: Weight): (r: Result<(Graph, bool), GraphError>)
    requires Valid(g)
    ensures r.Err? <==> EraseEdge(g, s, d, w).Err?
    ensures r.Ok? ==> Valid(r.value.0)
    ensures r.Ok? ==> EdgeSet(r.value.0.edges) <= EdgeSet(g.edges) - {Triple(s, d, w)}
    ensures r.Ok? ==> forall v :: v != s ==> (IsNode(r.value.0, v) <==> IsNode(g, v))
  {
    match EraseEdge(g, s, d, w)
    case Err(e) => Err(e)
    case Ok(res) =>
      if res.1 && Get(res.0.edges, s).None? then Ok((EraseNode(res.0, s).0, true))
      else Ok(res)
  }

  /** With the single edge 1 -> 2, the code erases node 1 along with the
      edge; the corrected `EraseEdge` keeps both nodes. */
  lemma EraseEdgeLosesSource()
    ensures var g := Graph([1, 2], [Entry(1, [Entry(2, [5])])]);
      && Valid(g)
      && EraseEdgeAsWritten(g, 1, 2, 5).Ok?
      && !IsNode(EraseEdgeAsWritten(g, 1, 2, 5).value.0, 1)
      && IsNode(EraseEdge(g, 1, 2, 5).value.0, 1)
  {
    OneEdgeGraphValid();
  }

  // ------------------------------------ erase_node leaves an empty source

  /** Every triple flattened from the destination map of `s` has source `s`. */
  lemma {:induction false} FlatDstsFrom(s: Node, dm: DstMap, t: Triple)
    requires t in FlatDsts(s, dm)
    ensures t.from == s
  {
    if t !in WeightTriples(s, dm[0].key, dm[0].val) {
      FlatDstsFrom(s, dm[1..], t);
    }
  }

  /** Dropping the destination entry keyed `v` drops exactly the triples
      into `v`. */
  lemma {:induction false} FlatDstsRemove(s: Node, dm: DstMap, v: Node, t: Triple)
    ensures t in FlatDsts(s, Remove(dm, v)) <==> t in FlatDsts(s, dm) && t.to != v
  {
    if dm != [] {
      var rest := Remove(dm[1..], v);
      FlatDstsRemove(s, dm[1..], v, t);
      WeightTriplesMember(s, dm[0].key, dm[0].val, t);
      if dm[0].key != v {
        assert ([dm[0]] + rest)[1..] == rest;
      }
    }
  }

  /** Dropping the source entry keyed `v` drops exactly the triples out of
      `v`. */
  lemma {:induction false} FlatRemove(es: Edges, v: Node, t: Triple)
    ensures t in Flat(Remove(es, v)) <==> t in Flat(es) && t.from != v
  {
    if es != [] {
      var rest := Remove(es[1..], v);
      FlatRemove(es[1..], v, t);
      if t in FlatDsts(es[0].key, es[0].val) {
        FlatDstsFrom(es[0].key, es[0].val, t);
      }
      if es[0].key != v {
        assert ([es[0]] + rest)[1..] == rest;
      }
    }
  }

  /** The loop of `erase_node` as written: `v` is removed from every source's
      destinations, and a source left with none keeps its (now empty) entry.
      Every other destination and weight stays. */
  function ClearDestination(es: Edges, v: Node): (r: Edges)
    ensures |r| == |es|
    ensures forall i :: 0 <= i < |r| ==> r[i].key == es[i].key && Get(r[i].val, v).None?
    ensures forall t :: t in Flat(r) <==> t in Flat(es) && t.to != v
  {
    if es == [] then []
    else
      var head := Entry(es[0].key, Remove(es[0].val, v));
      var rest := ClearDestination(es[1..], v);
      assert ([head] + rest)[1..] == rest;
      forall t
        ensures t in FlatDsts(head.key, head.val) <==> t in FlatDsts(es[0].key, es[0].val) && t.to != v
      {
        FlatDstsRemove(es[0].key, es[0].val, v, t);
      }
      [head] + rest
  }

  /** The storage half of `erase_node` as written: no source is pruned. The
      edges kept are exactly those of the corrected `DropNode`; only the
      emptied source entries differ. */
  function DropNodeAsWritten(es: Edges, v: Node): (r: Edges)
    ensures |r| == |Remove(es, v)|
    ensures forall i :: 0 <= i < |r| ==> r[i].key == Remove(es, v)[i].key
    ensures forall i :: 0 <= i < |r| ==> r[i].key != v && Get(r[i].val, v).None?
    ensures EdgeSet(r) == set t | t in EdgeSet(es) && t.from != v && t.to != v
    ensures WellFormed(es) ==> EdgeSet(r) == EdgeSet(DropNode(es, v))
  {
    var rest := Remove(es, v);
    assert forall i :: 0 <= i < |rest| ==> rest[i] in rest;
    forall t
      ensures t in Flat(rest) <==> t in Flat(es) && t.from != v
    {
      FlatRemove(es, v, t);
    }
    ClearDestination(rest, v)
  }

  /** Erasing node 2 from the single edge 1 -> 2 leaves source 1 with no
      destination: `begin()` then differs from `end()` yet denotes no edge,
      while the corrected `DropNode` leaves empty storage. */
  lemma DropNodeLeavesEmptySource()
    ensures var es := [Entry(1, [Entry(2, [5])])];
      && WellFormed(es)
      && DropNodeAsWritten(es, 2) == [Entry(1, [])]
      && !WellFormed(DropNodeAsWritten(es, 2))
      && Begin(DropNodeAsWritten(es, 2)) != End(DropNodeAsWritten(es, 2))
      && !AtEdge(DropNodeAsWritten(es, 2), Begin(DropNodeAsWritten(es, 2)))
      && DropNode(es, 2) == []
  {
    AsWrittenKeepsSource();
    CorrectedDropsSource();
  }

  lemma AsWrittenKeepsSource()
    ensures DropNodeAsWritten([Entry(1, [Entry(2, [5])])], 2) == [Entry(1, [])]
  {
    assert Remove([Entry(1, [Entry(2, [5])])], 2) == [Entry(1, [Entry(2, [5])])];
    assert Remove([Entry(2, [5])], 2) == [];
  }

  lemma CorrectedDropsSource()
    ensures DropNode([Entry(1, [Entry(2, [5])])], 2) == []
  {
    var es := [Entry(1, [Entry(2, [5])])];
    assert Flat(es) == [Triple(1, 2, 5)];
    assert EdgeSet(DropNode(es, 2)) == {};
  }

  // ------------------------------------- replace_node relabels one source

  /** `replace_node` as written: the registry is updated, but the loop over
      the storage works on copies of the destination maps and returns after
      the first source, so only a first source equal to `oldData` is
      renamed. */
  function ReplaceNodeAsWritten(g: Graph, oldData: Node, newData: Node): (r: Result<(Graph, bool), GraphError>)
    requires Valid(g)
    ensures r.Err? <==> ReplaceNode(g, oldData, newData).Err?
    ensures r.Ok? ==> r.value.1 == ReplaceNode(g, oldData, newData).value.1
    ensures r.Ok? ==> r.value.0.nodes == ReplaceNode(g, oldData, newData).value.0.nodes
    ensures r.Ok? && (g.edges == [] || g.edges[0].key != oldData) ==> r.value.0.edges == g.edges
  {
    if IsNode(g, newData) then Ok((g, false))
    else if !IsNode(g, oldData) then Err(ReplaceNodeMissingNode)
    else
      var nodes := SortedSeq.Insert(SortedSeq.Remove(g.nodes, oldData), newData);
      var edges := if g.edges != [] && g.edges[0].key == oldData then RelabelKey(g.edges, oldData, newData) else g.edges;
      Ok((Graph(nodes, edges), true))
  }

  /** Renaming node 2 to 3 in the single edge 1 -> 2 leaves the edge pointing
      at 2, which is no longer a node. */
  lemma ReplaceNodeMissesDestination()
    ensures var g := Graph([1, 2], [Entry(1, [Entry(2, [5])])]);
      && Valid(g)
      && ReplaceNodeAsWritten(g, 2, 3) == Ok((Graph([1, 3], g.edges), true))
      && !Valid(ReplaceNodeAsWritten(g, 2, 3).value.0)
  {
    OneEdgeGraphValid();
    assert SortedSeq.Remove([1, 2], 2) == [1];
    assert SortedSeq.Insert([1], 3) == [1, 3];
    assert Triple(1, 2, 5) in EdgeSet([Entry(1, [Entry(2, [5])])]) && 2 !in [1, 3];
  }

  // -------------------------------- operator== on graphs without edges

  /** The lockstep walk never reads `end()` of one traversal while the other
      goes on: the traversals have the same length, or they differ within the
      shorter one, where the loop breaks first. */
  predicate LockstepDefined(a: seq<Triple>, b: seq<Triple>)
  {
    || |a| == |b|
    || (|a| < |b| && a != b[..|a|])
    || (|b| < |a| && b != a[..|b|])
  }

  lemma LockstepDefinedTail(a: seq<Triple>, b: seq<Triple>)
    requires a != [] && b != [] && a[0] == b[0]
    requires LockstepDefined(a, b)
    ensures LockstepDefined(a[1..], b[1..])
  {
    if |a| < |b| {
      assert b[..|a|] == [b[0]] + b[1..][..|a| - 1];
      assert a == [a[0]] + a[1..];
    } else if |b| < |a| {
      assert a[..|b|] == [a[0]] + a[1..][..|b| - 1];
      assert b == [b[0]] + b[1..];
    }
  }

  /** The flag loop of `operator==`: the flag starts false, is set by each
      matching pair, and the loop breaks at the first mismatch. */
  function LockstepFlag(a: seq<Triple>, b: seq<Triple>, flag: bool): (r: bool)
    requires LockstepDefined(a, b)
    ensures r <==> a == b && (flag || a != [])
  {
    if a == [] && b == [] then flag
    else if a == [] || b == [] then false
    else if a[0] != b[0] then false
    else
      assert a == [a[0]] + a[1..] && b == [b[0]] + b[1..];
      LockstepDefinedTail(a, b);
      LockstepFlag(a[1..], b[1..], true)
  }

  /** `operator==` as written. The node lists are compared first; the walk
      reads `end()` when one traversal is a proper prefix of the other, and
      that case is excluded. */
  function EqualsAsWritten(g1: Graph, g2: Graph): (r: bool)
    requires Valid(g1) && Valid(g2)
    requires g1.nodes == g2.nodes ==> LockstepDefined(Flat(g1.edges), Flat(g2.edges))
    ensures r <==> g1.nodes == g2.nodes && Flat(g1.edges) == Flat(g2.edges) && Flat(g1.edges) != []
  {
    g1.nodes == g2.nodes && LockstepFlag(Flat(g1.edges), Flat(g2.edges), false)
  }

  /** A graph with a node and no edge is unequal to itself under the code;
      the corrected `Traversal.Equals` holds of it. */
  lemma EqualsAsWrittenNotReflexive()
    ensures var g := Graph([1], []);
      && Valid(g)
      && !EqualsAsWritten(g, g)
  {
    var g := Graph([1], []);
    assert Flat(g.edges) == [];
    assert EdgeSet(g.edges) == {};
  }
}
