/** Concrete scenarios taken from the cases in test/graph/graph_test1.cpp,
    derived from the operations' contracts rather than by evaluation. */
module Scenarios {
  import opened Results
  import SortedSeq
  import opened Triples
  import opened Adjacency
  import opened Gdwg

  /** Every triple joins two nodes of `g`. */
  predicate JoinsNodes(g: Graph, ts: seq<Triple>)
  {
    forall i :: 0 <= i < |ts| ==> IsNode(g, ts[i].from) && IsNode(g, ts[i].to)
  }

  /** Triples over the given values join nodes of the graph built from
      them. */
  lemma JoinsGivenNodes(xs: seq<Node>, ts: seq<Triple>)
    requires forall i :: 0 <= i < |ts| ==> ts[i].from in xs && ts[i].to in xs
    ensures Valid(FromNodes(xs)) && JoinsNodes(FromNodes(xs), ts)
  {
  }

  /** One `insert_edge` whose endpoints are nodes, which therefore succeeds. */
  function InsertOne(g: Graph, t: Triple): (r: Graph)
    requires Valid(g) && IsNode(g, t.from) && IsNode(g, t.to)
    ensures Valid(r) && r.nodes == g.nodes
    ensures EdgeSet(r.edges) == EdgeSet(g.edges) + {t}
  {
    InsertEdge(g, t.from, t.to, t.weight).value.0
  }

  /** The tests' set-up loop: `insert_edge` for each triple in turn, every
      endpoint being a node already. */
  function InsertAll(g: Graph, ts: seq<Triple>): (r: Graph)
    requires Valid(g) && JoinsNodes(g, ts)
    ensures Valid(r) && r.nodes == g.nodes
    ensures EdgeSet(r.edges) == EdgeSet(g.edges) + (set t | t in ts)
    decreases |ts|
  {
    if ts == [] then g
    else
      var h := InsertOne(g, ts[0]);
      assert (set u | u in ts) == {ts[0]} + (set u | u in ts[1..]);
      assert JoinsNodes(h, ts[1..]) by {
        forall i | 0 <= i < |ts| - 1
          ensures IsNode(h, ts[1..][i].from) && IsNode(h, ts[1..][i].to)
        {
          assert ts[1..][i] == ts[i + 1];
        }
      }
      InsertAll(h, ts[1..])
  }

  /** Nodes given as 1, 3, 4, 2 are reported as 1, 2, 3, 4. */
  lemma NodesAscending()
    ensures FromNodes([1, 3, 4, 2]).nodes == [1, 2, 3, 4]
  {
    SortedOfGiven(FromNodes([1, 3, 4, 2]).nodes);
  }

  /** An ascending sequence holding exactly 1, 3, 4 and 2 is 1, 2, 3, 4. */
  lemma SortedOfGiven(ns: seq<Node>)
    requires SortedSeq.Increasing(ns) && forall x :: x in ns <==> x in [1, 3, 4, 2]
    ensures ns == [1, 2, 3, 4]
  {
    forall x
      ensures x in ns <==> x in [1, 2, 3, 4]
    {
      assert x in [1, 3, 4, 2] <==> x == 1 || x == 3 || x == 4 || x == 2;
    }
    SortedSeq.SameElementsSameSeq(ns, [1, 2, 3, 4]);
  }

  /** Starting without edges, the weights between two nodes are those of
      the inserted triples joining them, ascending. */
  lemma WeightsOfInserted(g: Graph, ts: seq<Triple>, s: Node, d: Node, ws: seq<Weight>)
    requires Valid(g) && EdgeSet(g.edges) == {}
    requires JoinsNodes(g, ts)
    requires IsNode(g, s) && IsNode(g, d)
    requires SortedSeq.Increasing(ws)
    requires forall w :: Triple(s, d, w) in ts <==> w in ws
    ensures Weights(InsertAll(g, ts), s, d) == Ok(ws)
  {
    var r := Weights(InsertAll(g, ts), s, d).value;
    forall w
      ensures w in r <==> w in ws
    {
      assert Triple(s, d, w) in (set t | t in ts) <==> Triple(s, d, w) in ts;
    }
    SortedSeq.SameElementsSameSeq(r, ws);
  }

  /** Before any edge is inserted, `weights(1, 2)` is empty. */
  lemma NoWeightsWithoutEdges()
    ensures Weights(FromNodes([1, 3, 4, 2]), 1, 2) == Ok([])
  {
    WeightsOfInserted(FromNodes([1, 3, 4, 2]), [], 1, 2, []);
  }

  /** After edges 1 -> 4 (3), 2 -> 4 (2), 1 -> 1 (2) and 1 -> 4 (5), the
      weights from 1 to 4 are 3 then 5. */
  lemma WeightsAscending()
    ensures var g := FromNodes([1, 3, 4, 2]);
      var ts := [Triple(1, 4, 3), Triple(2, 4, 2), Triple(1, 1, 2), Triple(1, 4, 5)];
      && JoinsNodes(g, ts)
      && Weights(InsertAll(g, ts), 1, 4) == Ok([3, 5])
  {
    WeightsCase([1, 3, 4, 2], [Triple(1, 4, 3), Triple(2, 4, 2), Triple(1, 1, 2), Triple(1, 4, 5)]);
  }

  /** The proof of `WeightsAscending`, over names rather than literals so
      that the solver does not evaluate the graph construction eagerly. */
  lemma WeightsCase(xs: seq<Node>, ts: seq<Triple>)
    requires xs == [1, 3, 4, 2]
    requires ts == [Triple(1, 4, 3), Triple(2, 4, 2), Triple(1, 1, 2), Triple(1, 4, 5)]
    ensures JoinsNodes(FromNodes(xs), ts)
    ensures Weights(InsertAll(FromNodes(xs), ts), 1, 4) == Ok([3, 5])
  {
    JoinsGivenNodes(xs, ts);
    assert forall w :: Triple(1, 4, w) in ts <==> w in [3, 5];
    WeightsOfInserted(FromNodes(xs), ts, 1, 4, [3, 5]);
  }

  /** Starting without edges, the traversal is the inserted triples in
      ascending order, each once. */
  lemma TraversalOfInserted(g: Graph, ts: seq<Triple>, want: seq<Triple>)
    requires Valid(g) && EdgeSet(g.edges) == {}
    requires JoinsNodes(g, ts)
    requires StrictlySorted(want)
    requires forall t :: t in ts <==> t in want
    ensures Flat(InsertAll(g, ts).edges) == want
  {
    var es := InsertAll(g, ts).edges;
    FlatSorted(es);
    forall t
      ensures t in Flat(es) <==> t in want
    {
      assert t in EdgeSet(es) <==> t in Flat(es);
      assert t in (set u | u in ts) <==> t in ts;
    }
    SameElementsSameSeq(Flat(es), want);
  }

  /** After edges 1 -> 4 (3), 2 -> 4 (2) and 1 -> 1 (2), traversal yields
      (1, 1, 2), (1, 4, 3), (2, 4, 2). */
  lemma TraversalOrder()
    ensures var g := FromNodes([1, 3, 4, 2]);
      var ts := [Triple(1, 4, 3), Triple(2, 4, 2), Triple(1, 1, 2)];
      && JoinsNodes(g, ts)
      && Flat(InsertAll(g, ts).edges) == [Triple(1, 1, 2), Triple(1, 4, 3), Triple(2, 4, 2)]
  {
    TraversalCase([1, 3, 4, 2], [Triple(1, 4, 3), Triple(2, 4, 2), Triple(1, 1, 2)]);
  }

  /** The proof of `TraversalOrder`, over names rather than literals. */
  lemma TraversalCase(xs: seq<Node>, ts: seq<Triple>)
    requires xs == [1, 3, 4, 2]
    requires ts == [Triple(1, 4, 3), Triple(2, 4, 2), Triple(1, 1, 2)]
    ensures JoinsNodes(FromNodes(xs), ts)
    ensures Flat(InsertAll(FromNodes(xs), ts).edges) == [Triple(1, 1, 2), Triple(1, 4, 3), Triple(2, 4, 2)]
  {
    var want := [Triple(1, 1, 2), Triple(1, 4, 3), Triple(2, 4, 2)];
    JoinsGivenNodes(xs, ts);
    assert forall t :: t in ts <==> t in want;
    TraversalOfInserted(FromNodes(xs), ts, want);
  }
}
