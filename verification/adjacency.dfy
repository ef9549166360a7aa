/** The three-level edge storage `edges_` (include/gdwg/graph.hpp:462-465):
    source -> (destination -> set of weights), every level ordered by value.
    Two views of it are related here: the map view `Lookup`, which is how the
    mutators and accessors reach a weight set, and the flat view `Flat`, the
    ascending sequence of (from, to, weight) triples that the cursor walks. */
module Adjacency {
  import opened Results
  import opened SortedSeq
  import opened SortedMap
  import opened Triples

  type Node = int
  type Weight = int
  type WeightSet = seq<Weight>
  type DstMap = seq<Entry<WeightSet>>
  type Edges = seq<Entry<DstMap>>

  /** Keys are unique at both map levels. */
  predicate KeysUnique(es: Edges)
  {
    && KeysIncreasing(es)
    && forall e :: e in es ==> KeysIncreasing(e.val)
  }

  predicate WellFormedDsts(dm: DstMap)
  {
    && |dm| > 0
    && KeysIncreasing(dm)
    && forall e :: e in dm ==> |e.val| > 0 && Increasing(e.val)
  }

  /** Ordered at every level, and no empty level: no source maps to an empty
      destination map and no destination to an empty weight set. */
  predicate WellFormed(es: Edges)
  {
    && KeysIncreasing(es)
    && forall e :: e in es ==> WellFormedDsts(e.val)
  }

  function LookupDst(dm: DstMap, d: Node): WeightSet
  {
    match Get(dm, d)
    case None => []
    case Some(ws) => ws
  }

  /** The weights stored for `src -> dst`, empty when there are none. */
  function Lookup(es: Edges, s: Node, d: Node): WeightSet
  {
    match Get(es, s)
    case None => []
    case Some(dm) => LookupDst(dm, d)
  }

  function WeightTriples(s: Node, d: Node, ws: WeightSet): (r: seq<Triple>)
    ensures |r| == |ws|
    ensures forall k :: 0 <= k < |ws| ==> r[k] == Triple(s, d, ws[k])
  {
    seq(|ws|, k requires 0 <= k < |ws| => Triple(s, d, ws[k]))
  }

  function FlatDsts(s: Node, dm: DstMap): seq<Triple>
  {
    if dm == [] then [] else WeightTriples(s, dm[0].key, dm[0].val) + FlatDsts(s, dm[1..])
  }

  /** The triples in storage order: sources in map order, within a source its
      destinations in map order, within a destination its weights. */
  function Flat(es: Edges): seq<Triple>
  {
    if es == [] then [] else FlatDsts(es[0].key, es[0].val) + Flat(es[1..])
  }

  /** The edges stored, as a set. */
  function EdgeSet(es: Edges): set<Triple>
  {
    set t | t in Flat(es)
  }

  lemma {:induction false} FlatDstsAppend(s: Node, a: DstMap, b: DstMap)
    ensures FlatDsts(s, a + b) == FlatDsts(s, a) + FlatDsts(s, b)
  {
    if a != [] {
      assert (a + b)[1..] == a[1..] + b;
      FlatDstsAppend(s, a[1..], b);
    } else {
      assert a + b == b;
    }
  }

  lemma {:induction false} FlatAppend(a: Edges, b: Edges)
    ensures Flat(a + b) == Flat(a) + Flat(b)
  {
    if a != [] {
      assert (a + b)[1..] == a[1..] + b;
      FlatAppend(a[1..], b);
    } else {
      assert a + b == b;
    }
  }

  lemma WeightTriplesMember(s: Node, d: Node, ws: WeightSet, t: Triple)
    ensures t in WeightTriples(s, d, ws) <==> t.from == s && t.to == d && t.weight in ws
  {
    var r := WeightTriples(s, d, ws);
    if t.from == s && t.to == d && t.weight in ws {
      var k :| 0 <= k < |ws| && ws[k] == t.weight;
      assert r[k] == t;
    }
  }

  /** Flattening one destination map lists exactly the weights `LookupDst`
      finds, under the one source. */
  lemma {:induction false} FlatDstsMember(s: Node, dm: DstMap, t: Triple)
    requires KeysIncreasing(dm)
    ensures t in FlatDsts(s, dm) <==> t.from == s && t.weight in LookupDst(dm, t.to)
  {
    if dm != [] {
      WeightTriplesMember(s, dm[0].key, dm[0].val, t);
      FlatDstsMember(s, dm[1..], t);
      TailKeysAbove(dm);
    }
  }

  /** The map view and the flat view hold the same edges. */
  lemma {:induction false} FlatMember(es: Edges, t: Triple)
    requires KeysUnique(es)
    ensures t in Flat(es) <==> t.weight in Lookup(es, t.from, t.to)
  {
    if es != [] {
      assert es[0] in es;
      FlatDstsMember(es[0].key, es[0].val, t);
      FlatMember(es[1..], t);
      TailKeysAbove(es);
    }
  }

  lemma EdgeSetLookup(es: Edges, s: Node, d: Node, w: Weight)
    requires KeysUnique(es)
    ensures Triple(s, d, w) in EdgeSet(es) <==> w in Lookup(es, s, d)
  {
    FlatMember(es, Triple(s, d, w));
  }

  lemma EdgeSetLookupAll(es: Edges)
    requires KeysUnique(es)
    ensures forall t :: t in EdgeSet(es) <==> t.weight in Lookup(es, t.from, t.to)
  {
    forall t
      ensures t in EdgeSet(es) <==> t.weight in Lookup(es, t.from, t.to)
    {
      FlatMember(es, t);
    }
  }

  /** Every weight set found through the map view is ordered, and it is
      non-empty exactly when the pair is a stored key pair. */
  lemma LookupIncreasing(es: Edges, s: Node, d: Node)
    requires WellFormed(es)
    ensures Increasing(Lookup(es, s, d))
    ensures |Lookup(es, s, d)| > 0 <==> Get(es, s).Some? && Get(Get(es, s).value, d).Some?
  {
    if Get(es, s).Some? {
      var dm := Get(es, s).value;
      assert Entry(s, dm) in es;
      if Get(dm, d).Some? {
        assert Entry(d, Get(dm, d).value) in dm;
      }
    }
  }

  lemma WeightTriplesSorted(s: Node, d: Node, ws: WeightSet)
    requires Increasing(ws)
    ensures StrictlySorted(WeightTriples(s, d, ws))
  {
  }

  lemma {:induction false} FlatDstsSorted(s: Node, dm: DstMap)
    requires KeysIncreasing(dm)
    requires forall e :: e in dm ==> Increasing(e.val)
    ensures StrictlySorted(FlatDsts(s, dm))
  {
    if dm != [] {
      assert dm[0] in dm;
      WeightTriplesSorted(s, dm[0].key, dm[0].val);
      FlatDstsSorted(s, dm[1..]);
      forall x, y | x in WeightTriples(s, dm[0].key, dm[0].val) && y in FlatDsts(s, dm[1..])
        ensures Less(x, y)
      {
        WeightTriplesMember(s, dm[0].key, dm[0].val, x);
        FlatDstsMember(s, dm[1..], y);
        assert Entry(y.to, Get(dm[1..], y.to).value) in dm[1..];
      }
      SortedConcat(WeightTriples(s, dm[0].key, dm[0].val), FlatDsts(s, dm[1..]));
    }
  }

  /** Storage order is the ascending (from, to, weight) order. */
  lemma {:induction false} FlatSorted(es: Edges)
    requires WellFormed(es)
    ensures StrictlySorted(Flat(es))
  {
    if es != [] {
      assert es[0] in es;
      FlatDstsSorted(es[0].key, es[0].val);
      FlatSorted(es[1..]);
      forall x, y | x in FlatDsts(es[0].key, es[0].val) && y in Flat(es[1..])
        ensures Less(x, y)
      {
        FlatDstsMember(es[0].key, es[0].val, x);
        FlatMember(es[1..], y);
        assert Entry(y.from, Get(es[1..], y.from).value) in es[1..];
      }
      SortedConcat(FlatDsts(es[0].key, es[0].val), Flat(es[1..]));
    }
  }

  /** Every stored edge joins two nodes: the registry holds every endpoint. */
  predicate EndpointsIn(nodes: seq<Node>, es: Edges)
  {
    forall t :: t in EdgeSet(es) ==> t.from in nodes && t.to in nodes
  }

  /** At least one edge runs from `s` to `d`. */
  ghost predicate Connected(es: Edges, s: Node, d: Node)
  {
    exists w :: Triple(s, d, w) in EdgeSet(es)
  }

  /** A pair is connected exactly when the map view finds weights for it. */
  lemma ConnectedIffLookup(es: Edges, s: Node, d: Node)
    requires WellFormed(es)
    ensures Connected(es, s, d) <==> |Lookup(es, s, d)| > 0
  {
    var ws := Lookup(es, s, d);
    if |ws| > 0 {
      EdgeSetLookup(es, s, d, ws[0]);
    }
    if Connected(es, s, d) {
      var w :| Triple(s, d, w) in EdgeSet(es);
      EdgeSetLookup(es, s, d, w);
    }
  }

  /** With no empty level, every source key and every destination key is the
      endpoint of a stored edge, so `EndpointsIn` also places every key of
      the storage in the registry. */
  lemma KeysAreEndpoints(nodes: seq<Node>, es: Edges, s: Node, d: Node)
    requires WellFormed(es) && EndpointsIn(nodes, es)
    ensures Get(es, s).Some? ==> s in nodes
    ensures Get(es, s).Some? && Get(Get(es, s).value, d).Some? ==> d in nodes
  {
    if Get(es, s).Some? {
      var dm := Get(es, s).value;
      assert Entry(s, dm) in es;
      assert dm[0] in dm;
      GetFindsEntry(dm, dm[0]);
      EdgeSetLookup(es, s, dm[0].key, dm[0].val[0]);
      if Get(dm, d).Some? {
        assert Entry(d, Get(dm, d).value) in dm;
        EdgeSetLookup(es, s, d, Get(dm, d).value[0]);
      }
    }
  }
}
