/** The edge-storage side of the graph's mutators: each takes a well-formed
    adjacency to a well-formed adjacency (ordered, no empty level) and states
    its effect on the set of stored edges. */
module EdgeOps {
  import opened Results
  import SortedSeq
  import opened SortedMap
  import opened Triples
  import opened Adjacency

  /** The destination map of `s`; empty when `s` has no entry, which is what
      `edges_[src]` default-constructs. */
  function DstsOf(es: Edges, s: Node): DstMap
  {
    match Get(es, s)
    case None => []
    case Some(dm) => dm
  }

  lemma DstsOfWellFormed(es: Edges, s: Node)
    requires WellFormed(es)
    ensures KeysIncreasing(DstsOf(es, s))
    ensures forall e :: e in DstsOf(es, s) ==> |e.val| > 0 && SortedSeq.Increasing(e.val)
    ensures Lookup(es, s, s) == LookupDst(DstsOf(es, s), s)
  {
    if Get(es, s).Some? {
      assert Entry(s, Get(es, s).value) in es;
    }
  }

  lemma LookupPut(es: Edges, s: Node, dm: DstMap, s': Node, d': Node)
    requires KeysIncreasing(es)
    ensures Lookup(Put(es, s, dm), s', d') == if s' == s then LookupDst(dm, d') else Lookup(es, s', d')
  {
    GetPut(es, s, dm, s');
  }

  lemma LookupDstPut(dm: DstMap, d: Node, ws: WeightSet, d': Node)
    requires KeysIncreasing(dm)
    ensures LookupDst(Put(dm, d, ws), d') == if d' == d then ws else LookupDst(dm, d')
  {
    GetPut(dm, d, ws, d');
  }

  lemma LookupRemove(es: Edges, s: Node, s': Node, d': Node)
    ensures Lookup(Remove(es, s), s', d') == if s' == s then [] else Lookup(es, s', d')
  {
    GetRemove(es, s, s');
  }

  lemma LookupDstRemove(dm: DstMap, d: Node, d': Node)
    ensures LookupDst(Remove(dm, d), d') == if d' == d then [] else LookupDst(dm, d')
  {
    GetRemove(dm, d, d');
  }

  // ---------------------------------------------------------------- insert

  /** `edges_[src][dst].insert(weight)`: creates the source and destination
      entries on demand and adds the weight to their set. */
  function AddEdge(es: Edges, s: Node, d: Node, w: Weight): (r: Edges)
    requires WellFormed(es)
    ensures WellFormed(r)
    ensures EdgeSet(r) == EdgeSet(es) + {Triple(s, d, w)}
  {
    DstsOfWellFormed(es, s);
    LookupIncreasing(es, s, d);
    var dm := DstsOf(es, s);
    var ws := SortedSeq.Insert(Lookup(es, s, d), w);
    var dm' := Put(dm, d, ws);
    assert Entry(d, ws) in dm';
    var r := Put(es, s, dm');
    AddEdgeEdgeSet(es, s, d, w, dm, ws, r);
    r
  }

  lemma AddEdgeEdgeSet(es: Edges, s: Node, d: Node, w: Weight, dm: DstMap, ws: WeightSet, r: Edges)
    requires WellFormed(es) && dm == DstsOf(es, s) && KeysIncreasing(dm)
    requires SortedSeq.Increasing(Lookup(es, s, d)) && ws == SortedSeq.Insert(Lookup(es, s, d), w)
    requires r == Put(es, s, Put(dm, d, ws)) && KeysUnique(r)
    ensures EdgeSet(r) == EdgeSet(es) + {Triple(s, d, w)}
  {
    forall t
      ensures t in EdgeSet(r) <==> t in EdgeSet(es) || t == Triple(s, d, w)
    {
      EdgeSetLookup(r, t.from, t.to, t.weight);
      EdgeSetLookup(es, t.from, t.to, t.weight);
      LookupPut(es, s, Put(dm, d, ws), t.from, t.to);
      LookupDstPut(dm, d, ws, t.to);
    }
  }

  // ----------------------------------------------------------------- erase

  /** Removes one stored weight, then prunes the destination entry if its
      weight set became empty and the source entry if it has no destination
      left. Node membership is not touched here. */
  function RemoveEdge(es: Edges, s: Node, d: Node, w: Weight): (r: Edges)
    requires WellFormed(es)
    requires Triple(s, d, w) in EdgeSet(es)
    ensures WellFormed(r)
    ensures EdgeSet(r) == EdgeSet(es) - {Triple(s, d, w)}
  {
    DstsOfWellFormed(es, s);
    LookupIncreasing(es, s, d);
    var dm := DstsOf(es, s);
    var ws := SortedSeq.Remove(Lookup(es, s, d), w);
    var dm' := if ws == [] then Remove(dm, d) else Put(dm, d, ws);
    var r := if dm' == [] then Remove(es, s) else Put(es, s, dm');
    PruneWellFormed(es, s, d, ws, dm', r);
    RemoveEdgeEdgeSet(es, s, d, w, ws, dm', r);
    r
  }

  /** Replacing a weight set by a non-empty sorted one, or dropping it, and
      dropping a source left empty keeps the storage well formed. */
  lemma PruneWellFormed(es: Edges, s: Node, d: Node, ws: WeightSet, dm': DstMap, r: Edges)
    requires WellFormed(es) && SortedSeq.Increasing(ws)
    requires dm' == if ws == [] then Remove(DstsOf(es, s), d) else Put(DstsOf(es, s), d, ws)
    requires r == if dm' == [] then Remove(es, s) else Put(es, s, dm')
    ensures WellFormed(r) && KeysUnique(r)
  {
    DstsOfWellFormed(es, s);
    assert forall e :: e in dm' ==> |e.val| > 0 && SortedSeq.Increasing(e.val);
    if dm' == [] {
      assert forall e :: e in r ==> e in es;
    } else {
      assert forall e :: e in r ==> e in es || e == Entry(s, dm');
    }
  }

  lemma RemoveEdgeLookup(es: Edges, s: Node, d: Node, ws: WeightSet, dm': DstMap, r: Edges, s': Node, d': Node)
    requires KeysIncreasing(es) && KeysIncreasing(DstsOf(es, s))
    requires dm' == if ws == [] then Remove(DstsOf(es, s), d) else Put(DstsOf(es, s), d, ws)
    requires r == if dm' == [] then Remove(es, s) else Put(es, s, dm')
    ensures Lookup(r, s', d') == if s' == s && d' == d then ws else Lookup(es, s', d')
  {
    var dm := DstsOf(es, s);
    if ws == [] {
      LookupDstRemove(dm, d, d');
    } else {
      LookupDstPut(dm, d, ws, d');
    }
    if dm' == [] {
      LookupRemove(es, s, s', d');
    } else {
      LookupPut(es, s, dm', s', d');
    }
  }

  lemma RemoveEdgeEdgeSet(es: Edges, s: Node, d: Node, w: Weight, ws: WeightSet, dm': DstMap, r: Edges)
    requires KeysUnique(es) && KeysUnique(r) && KeysIncreasing(DstsOf(es, s))
    requires forall x :: x in ws <==> x in Lookup(es, s, d) && x != w
    requires dm' == if ws == [] then Remove(DstsOf(es, s), d) else Put(DstsOf(es, s), d, ws)
    requires r == if dm' == [] then Remove(es, s) else Put(es, s, dm')
    ensures EdgeSet(r) == EdgeSet(es) - {Triple(s, d, w)}
  {
    forall t
      ensures t in EdgeSet(r) <==> t in EdgeSet(es) && t != Triple(s, d, w)
    {
      EdgeSetLookup(r, t.from, t.to, t.weight);
      EdgeSetLookup(es, t.from, t.to, t.weight);
      RemoveEdgeLookup(es, s, d, ws, dm', r, t.from, t.to);
    }
  }

  /** Drops every destination entry keyed `v`, and every source entry left
      with no destination. */
  function DropDestination(es: Edges, v: Node): (r: Edges)
    requires WellFormed(es)
    ensures WellFormed(r)
    ensures forall k :: Get(r, k).Some? ==> Get(es, k).Some?
  {
    if es == [] then []
    else
      assert es[0] in es;
      var rest := DropDestination(es[1..], v);
      var dm := Remove(es[0].val, v);
      if dm == [] then rest
      else
        TailKeysAbove(es);
        RestKeysAbove(es, rest);
        ConsKeysIncreasing(Entry(es[0].key, dm), rest);
        [Entry(es[0].key, dm)] + rest
  }

  lemma RestKeysAbove(es: Edges, rest: Edges)
    requires es != [] && KeysIncreasing(es) && KeysIncreasing(rest)
    requires forall k :: Get(rest, k).Some? ==> Get(es[1..], k).Some?
    ensures forall e :: e in rest ==> es[0].key < e.key
  {
    TailKeysAbove(es);
    forall e | e in rest
      ensures es[0].key < e.key
    {
      GetFindsEntry(rest, e);
      assert Entry(e.key, Get(es[1..], e.key).value) in es[1..];
    }
  }

  lemma {:induction false} DropDestinationLookup(es: Edges, v: Node, s: Node, d: Node)
    requires WellFormed(es)
    ensures Lookup(DropDestination(es, v), s, d) == if d == v then [] else Lookup(es, s, d)
  {
    if es != [] {
      assert es[0] in es;
      var rest := DropDestination(es[1..], v);
      var dm := Remove(es[0].val, v);
      DropDestinationLookup(es[1..], v, s, d);
      LookupDstRemove(es[0].val, v, d);
      if s == es[0].key {
        TailKeysAbove(es);
        assert Get(es[1..], s).None?;
        assert Get(rest, s).None?;
      }
    }
  }

  /** `erase_node`'s effect on the storage: the source entry of `v` and every
      destination entry of `v` go, and so does any source left empty. */
  function DropNode(es: Edges, v: Node): (r: Edges)
    requires WellFormed(es)
    ensures WellFormed(r)
    ensures EdgeSet(r) == set t | t in EdgeSet(es) && t.from != v && t.to != v
  {
    var r := DropDestination(Remove(es, v), v);
    forall t
      ensures t in EdgeSet(r) <==> t in EdgeSet(es) && t.from != v && t.to != v
    {
      EdgeSetLookup(r, t.from, t.to, t.weight);
      EdgeSetLookup(es, t.from, t.to, t.weight);
      DropDestinationLookup(Remove(es, v), v, t.from, t.to);
      LookupRemove(es, v, t.from, t.to);
    }
    r
  }

  // --------------------------------------------------------------- relabel

  function RenameNode(x: Node, from: Node, to: Node): Node
  {
    if x == from then to else x
  }

  /** The edge with every occurrence of `from` as an endpoint replaced by `to`. */
  function RenameTriple(t: Triple, from: Node, to: Node): Triple
  {
    Triple(RenameNode(t.from, from, to), RenameNode(t.to, from, to), t.weight)
  }

  /** Re-keys the destination entry `from` to `to` inside every source. */
  function RelabelDestinations(es: Edges, from: Node, to: Node): (r: Edges)
    requires WellFormed(es)
    ensures WellFormed(r)
    ensures |r| == |es| && forall i :: 0 <= i < |r| ==> r[i].key == es[i].key
  {
    if es == [] then []
    else
      assert es[0] in es;
      var dm := RelabelKey(es[0].val, from, to);
      RelabelDstsWellFormed(es[0].val, from, to);
      var rest := RelabelDestinations(es[1..], from, to);
      SameKeysAbove(es, rest);
      WellFormedCons(Entry(es[0].key, dm), rest);
      [Entry(es[0].key, dm)] + rest
  }

  lemma RelabelDstsWellFormed(dm: DstMap, from: Node, to: Node)
    requires WellFormedDsts(dm)
    ensures WellFormedDsts(RelabelKey(dm, from, to))
  {
    forall e | e in RelabelKey(dm, from, to)
      ensures |e.val| > 0 && SortedSeq.Increasing(e.val)
    {
      assert e in dm || Entry(from, e.val) in dm;
    }
  }

  /** A tail with the same keys as `es[1..]` lies above `es[0]`'s key. */
  lemma SameKeysAbove(es: Edges, rest: Edges)
    requires es != [] && KeysIncreasing(es)
    requires |rest| == |es| - 1 && forall i :: 0 <= i < |rest| ==> rest[i].key == es[i + 1].key
    ensures forall x :: x in rest ==> es[0].key < x.key
  {
    forall x | x in rest
      ensures es[0].key < x.key
    {
      var i :| 0 <= i < |rest| && rest[i] == x;
      assert es[i + 1].key == x.key;
    }
  }

  lemma WellFormedCons(e: Entry<DstMap>, rest: Edges)
    requires WellFormedDsts(e.val) && WellFormed(rest)
    requires forall x :: x in rest ==> e.key < x.key
    ensures WellFormed([e] + rest)
  {
    ConsKeysIncreasing(e, rest);
  }

  lemma {:induction false} RelabelDestinationsLookup(es: Edges, from: Node, to: Node, s: Node, d: Node)
    requires WellFormed(es)
    requires Get(DstsOf(es, s), to).None?
    ensures Get(RelabelDestinations(es, from, to), s).Some? <==> Get(es, s).Some?
    ensures Lookup(RelabelDestinations(es, from, to), s, d) ==
      if d == from then [] else Lookup(es, s, RenameNode(d, to, from))
  {
    if es != [] {
      assert es[0] in es;
      if s == es[0].key {
        GetRelabelKey(es[0].val, from, to, d);
      } else {
        RelabelDestinationsLookup(es[1..], from, to, s, d);
      }
    }
  }

  /** `replace_node`'s effect on the storage: the source key `from` and every
      destination key `from` become `to`, weights unchanged. */
  function Relabel(es: Edges, from: Node, to: Node): (r: Edges)
    requires WellFormed(es)
    ensures WellFormed(r)
  {
    var dsts := RelabelDestinations(es, from, to);
    var r := RelabelKey(dsts, from, to);
    assert forall e :: e in r ==> WellFormedDsts(e.val) by {
      forall e | e in r
        ensures WellFormedDsts(e.val)
      {
        assert e in dsts || Entry(from, e.val) in dsts;
      }
    }
    r
  }

  lemma RelabelLookup(nodes: seq<Node>, es: Edges, from: Node, to: Node, s: Node, d: Node)
    requires WellFormed(es) && EndpointsIn(nodes, es) && to !in nodes
    ensures Lookup(Relabel(es, from, to), s, d) ==
      if s == from || d == from then [] else Lookup(es, RenameNode(s, to, from), RenameNode(d, to, from))
  {
    var dsts := RelabelDestinations(es, from, to);
    var s0 := RenameNode(s, to, from);
    KeysAreEndpoints(nodes, es, to, to);
    KeysAreEndpoints(nodes, es, s0, to);
    KeysAreEndpoints(nodes, es, from, to);
    RelabelDestinationsLookup(es, from, to, to, d);
    RelabelDestinationsLookup(es, from, to, s0, d);
    GetRelabelKey(dsts, from, to, s);
  }

  /** The relabelled storage holds exactly the renamed edges. */
  lemma RelabelEdgeSet(nodes: seq<Node>, es: Edges, from: Node, to: Node)
    requires WellFormed(es) && EndpointsIn(nodes, es) && to !in nodes
    ensures EdgeSet(Relabel(es, from, to)) == set t | t in EdgeSet(es) :: RenameTriple(t, from, to)
  {
    var r := Relabel(es, from, to);
    var image := set t | t in EdgeSet(es) :: RenameTriple(t, from, to);
    forall t' | t' in EdgeSet(r)
      ensures t' in image
    {
      EdgeSetLookup(r, t'.from, t'.to, t'.weight);
      RelabelLookup(nodes, es, from, to, t'.from, t'.to);
      var t := Triple(RenameNode(t'.from, to, from), RenameNode(t'.to, to, from), t'.weight);
      EdgeSetLookup(es, t.from, t.to, t.weight);
      assert RenameTriple(t, from, to) == t';
    }
    forall t | t in EdgeSet(es)
      ensures RenameTriple(t, from, to) in EdgeSet(r)
    {
      var t' := RenameTriple(t, from, to);
      EdgeSetLookup(r, t'.from, t'.to, t'.weight);
      EdgeSetLookup(es, t.from, t.to, t.weight);
      RelabelLookup(nodes, es, from, to, t'.from, t'.to);
    }
  }
}
