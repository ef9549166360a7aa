/** The facade `gdwg::graph<N, E>` (include/gdwg/graph.hpp:24-482) with
    N = E = int: a sorted node registry and the three-level edge storage,
    kept in lockstep by the mutators. Copying is the identity on values, so
    the copy and move members have no counterpart here. */
module Gdwg {
  import opened Results
  import SortedSeq
  import opened SortedMap
  import opened Triples
  import opened Adjacency
  import opened EdgeOps
  import opened Cursors

  /** The operations that throw `std::runtime_error`, one case per message. */
  datatype GraphError =
    | InsertEdgeMissingNode
    | ReplaceNodeMissingNode
    | EraseEdgeMissingNode
    | IsConnectedMissingNode
    | WeightsMissingNode
    | ConnectionsMissingNode

  function Message(e: GraphError): string
  {
    match e
    case InsertEdgeMissingNode =>
      "Cannot call gdwg::graph<N, E>::insert_edge when either src or dst node does not exist"
    case ReplaceNodeMissingNode =>
      "Cannot call gdwg::graph<N, E>::replace_node on a node that doesn't exist"
    case EraseEdgeMissingNode =>
      "Cannot call gdwg::graph<N, E>::erase_edge on src or dst if they don't exist in the graph"
    case IsConnectedMissingNode =>
      "Cannot call gdwg::graph<N, E>::is_connected if src or dst node don't exist in the graph"
    case WeightsMissingNode =>
      "Cannot call gdwg::graph<N, E>::weights if src or dst node don't exist in the graph"
    case ConnectionsMissingNode =>
      "Cannot call gdwg::graph<N, E>::connections if src doesn't exist in the graph"
  }

  datatype Graph = Graph(nodes: seq<Node>, edges: Edges)

  /** The class invariant: the registry is ordered without duplicates, the
      storage is ordered with no empty level, and every edge joins two nodes. */
  predicate Valid(g: Graph)
  {
    && SortedSeq.Increasing(g.nodes)
    && WellFormed(g.edges)
    && EndpointsIn(g.nodes, g.edges)
  }

  /** `is_node`. */
  predicate IsNode(g: Graph, v: Node)
  {
    v in g.nodes
  }

  /** `empty()`: no node at all. */
  predicate IsEmpty(g: Graph)
  {
    g.nodes == []
  }

  /** `graph()`. */
  function NewGraph(): (g: Graph)
    ensures Valid(g) && IsEmpty(g) && EdgeSet(g.edges) == {}
  {
    Graph([], [])
  }

  // ------------------------------------------------------------- modifiers

  /** `insert_node`: adds `v` unless it is already a node; reports whether it
      was added. */
  function InsertNode(g: Graph, v: Node): (r: (Graph, bool))
    requires Valid(g)
    ensures Valid(r.0)
    ensures r.1 <==> !IsNode(g, v)
    ensures forall x :: IsNode(r.0, x) <==> IsNode(g, x) || x == v
    ensures r.0.edges == g.edges
    ensures !r.1 ==> r.0 == g
  {
    if IsNode(g, v) then (g, false)
    else (Graph(SortedSeq.Insert(g.nodes, v), g.edges), true)
  }

  /** `graph(std::initializer_list<N>)` and the iterator-range constructor:
      inserts the values in order, duplicates collapsing. */
  function FromNodes(xs: seq<Node>): (g: Graph)
    ensures Valid(g)
    ensures forall v :: IsNode(g, v) <==> v in xs
    ensures EdgeSet(g.edges) == {}
  {
    if xs == [] then NewGraph()
    else InsertNode(FromNodes(xs[..|xs| - 1]), xs[|xs| - 1]).0
  }

  /** `insert_edge`: both endpoints must be nodes; a triple already stored
      is reported with `false` and nothing changes. */
  function InsertEdge(g: Graph, s: Node, d: Node, w: Weight): (r: Result<(Graph, bool), GraphError>)
    requires Valid(g)
    ensures r.Err? <==> !IsNode(g, s) || !IsNode(g, d)
    ensures r.Err? ==> r.error == InsertEdgeMissingNode
    ensures r.Ok? ==> Valid(r.value.0) && r.value.0.nodes == g.nodes
    ensures r.Ok? ==> (r.value.1 <==> Triple(s, d, w) !in EdgeSet(g.edges))
    ensures r.Ok? ==> EdgeSet(r.value.0.edges) == EdgeSet(g.edges) + {Triple(s, d, w)}
  {
    if !IsNode(g, s) || !IsNode(g, d) then Err(InsertEdgeMissingNode)
    else
      EdgeSetLookup(g.edges, s, d, w);
      if w in Lookup(g.edges, s, d) then Ok((g, false))
      else Ok((Graph(g.nodes, AddEdge(g.edges, s, d, w)), true))
  }

  /** `replace_node`: when `newData` is already a node, `false` and nothing
      changes; otherwise `oldData` must be a node, and it is renamed to
      `newData` in the registry and at every edge endpoint. */
  function ReplaceNode(g: Graph, oldData: Node, newData: Node): (r: Result<(Graph, bool), GraphError>)
    requires Valid(g)
    ensures r.Err? <==> !IsNode(g, newData) && !IsNode(g, oldData)
    ensures r.Err? ==> r.error == ReplaceNodeMissingNode
    ensures r.Ok? ==> Valid(r.value.0)
    ensures r.Ok? ==> (r.value.1 <==> !IsNode(g, newData))
    ensures r.Ok? && !r.value.1 ==> r.value.0 == g
    ensures r.Ok? && r.value.1 ==>
      forall v :: IsNode(r.value.0, v) <==> (IsNode(g, v) && v != oldData) || v == newData
    ensures r.Ok? && r.value.1 ==>
      EdgeSet(r.value.0.edges) == set t | t in EdgeSet(g.edges) :: RenameTriple(t, oldData, newData)
  {
    if IsNode(g, newData) then Ok((g, false))
    else if !IsNode(g, oldData) then Err(ReplaceNodeMissingNode)
    else
      var nodes := SortedSeq.Insert(SortedSeq.Remove(g.nodes, oldData), newData);
      var edges := Relabel(g.edges, oldData, newData);
      RelabelEdgeSet(g.nodes, g.edges, oldData, newData);
      assert EndpointsIn(nodes, edges) by {
        forall t | t in EdgeSet(edges)
          ensures t.from in nodes && t.to in nodes
        {
          var t0 :| t0 in EdgeSet(g.edges) && RenameTriple(t0, oldData, newData) == t;
        }
      }
      Ok((Graph(nodes, edges), true))
  }

  /** `erase_node`: `false` and no change when `v` is not a node; otherwise
      `v` leaves the registry and every edge into or out of it goes. */
  function EraseNode(g: Graph, v: Node): (r: (Graph, bool))
    requires Valid(g)
    ensures Valid(r.0)
    ensures r.1 <==> IsNode(g, v)
    ensures !r.1 ==> r.0 == g
    ensures forall x :: IsNode(r.0, x) <==> IsNode(g, x) && x != v
    ensures EdgeSet(r.0.edges) == set t | t in EdgeSet(g.edges) && t.from != v && t.to != v
  {
    if !IsNode(g, v) then
      assert EdgeSet(g.edges) == set t | t in EdgeSet(g.edges) && t.from != v && t.to != v;
      (g, false)
    else (Graph(SortedSeq.Remove(g.nodes, v), DropNode(g.edges, v)), true)
  }

  /** `erase_edge(src, dst, weight)`: both endpoints must be nodes; an absent
      triple gives `false`; otherwise exactly that triple goes. Both nodes
      stay in the registry even when they are left with no edge. */
  function EraseEdge(g: Graph, s: Node, d: Node, w: Weight): (r: Result<(Graph, bool), GraphError>)
    requires Valid(g)
    ensures r.Err? <==> !IsNode(g, s) || !IsNode(g, d)
    ensures r.Err? ==> r.error == EraseEdgeMissingNode
    ensures r.Ok? ==> Valid(r.value.0) && r.value.0.nodes == g.nodes
    ensures r.Ok? ==> (r.value.1 <==> Triple(s, d, w) in EdgeSet(g.edges))
    ensures r.Ok? ==> EdgeSet(r.value.0.edges) == EdgeSet(g.edges) - {Triple(s, d, w)}
  {
    if !IsNode(g, s) || !IsNode(g, d) then Err(EraseEdgeMissingNode)
    else
      EdgeSetLookup(g.edges, s, d, w);
      if w !in Lookup(g.edges, s, d) then Ok((g, false))
      else Ok((Graph(g.nodes, RemoveEdge(g.edges, s, d, w)), true))
  }

  /** `clear()`: no node and no edge remain. */
  function Clear(g: Graph): (r: Graph)
    ensures Valid(r) && IsEmpty(r) && EdgeSet(r.edges) == {}
  {
    NewGraph()
  }

  // ------------------------------------------------------------- accessors

  /** `nodes()`: the registry in ascending order. */
  function Nodes(g: Graph): (r: seq<Node>)
    requires Valid(g)
    ensures SortedSeq.Increasing(r)
    ensures forall v :: v in r <==> IsNode(g, v)
  {
    g.nodes
  }

  /** `is_connected`: both nodes must exist; then whether some edge runs
      from `s` to `d`. */
  function IsConnected(g: Graph, s: Node, d: Node): (r: Result<bool, GraphError>)
    requires Valid(g)
    ensures r.Err? <==> !IsNode(g, s) || !IsNode(g, d)
    ensures r.Err? ==> r.error == IsConnectedMissingNode
    ensures r.Ok? ==> (r.value <==> Connected(g.edges, s, d))
  {
    if !IsNode(g, s) || !IsNode(g, d) then Err(IsConnectedMissingNode)
    else
      LookupIncreasing(g.edges, s, d);
      ConnectedIffLookup(g.edges, s, d);
      match Get(g.edges, s)
      case None => Ok(false)
      case Some(dm) => Ok(Get(dm, d).Some?)
  }

  /** `weights`: both nodes must exist; then the weights of the edges from
      `s` to `d`, ascending, empty when there are none. */
  function Weights(g: Graph, s: Node, d: Node): (r: Result<seq<Weight>, GraphError>)
    requires Valid(g)
    ensures r.Err? <==> !IsNode(g, s) || !IsNode(g, d)
    ensures r.Err? ==> r.error == WeightsMissingNode
    ensures r.Ok? ==> SortedSeq.Increasing(r.value)
    ensures r.Ok? ==> forall w :: w in r.value <==> Triple(s, d, w) in EdgeSet(g.edges)
  {
    if !IsNode(g, s) || !IsNode(g, d) then Err(WeightsMissingNode)
    else
      LookupIncreasing(g.edges, s, d);
      EdgeSetLookupAll(g.edges);
      Ok(Lookup(g.edges, s, d))
  }

  /** `connections`: `s` must exist; then the destinations reached from `s`
      by at least one edge, ascending, each once. */
  function Connections(g: Graph, s: Node): (r: Result<seq<Node>, GraphError>)
    requires Valid(g)
    ensures r.Err? <==> !IsNode(g, s)
    ensures r.Err? ==> r.error == ConnectionsMissingNode
    ensures r.Ok? ==> SortedSeq.Increasing(r.value)
    ensures r.Ok? ==> forall d :: d in r.value <==> Connected(g.edges, s, d)
  {
    if !IsNode(g, s) then Err(ConnectionsMissingNode)
    else
      DstsOfWellFormed(g.edges, s);
      var dm := DstsOf(g.edges, s);
      forall d
        ensures d in Keys(dm) <==> Connected(g.edges, s, d)
      {
        KeysMember(dm, d);
        LookupIncreasing(g.edges, s, d);
        ConnectedIffLookup(g.edges, s, d);
      }
      Ok(Keys(dm))
  }
  // ------------------------------------------------------------- properties

  /** After `insert_node(v)`, `v` is a node and a second call reports `false`
      without changing anything. */
  lemma InsertNodeTwice(g: Graph, v: Node)
    requires Valid(g)
    ensures IsNode(InsertNode(g, v).0, v)
    ensures InsertNode(InsertNode(g, v).0, v) == (InsertNode(g, v).0, false)
  {
  }

  /** For two nodes, `weights` is empty exactly when `is_connected` is false. */
  lemma WeightsEmptyIffDisconnected(g: Graph, s: Node, d: Node)
    requires Valid(g) && IsNode(g, s) && IsNode(g, d)
    ensures Weights(g, s, d).value == [] <==> !IsConnected(g, s, d).value
  {
    var ws := Weights(g, s, d).value;
    if ws != [] {
      assert ws[0] in ws;
      assert Triple(s, d, ws[0]) in EdgeSet(g.edges);
    }
  }

  /** A graph without nodes has no edges, and its `begin()` is its `end()`. */
  lemma EmptyGraphHasNoEdges(g: Graph)
    requires Valid(g) && IsEmpty(g)
    ensures EdgeSet(g.edges) == {}
    ensures Flat(g.edges) == []
    ensures Begin(g.edges) == End(g.edges)
  {
    HeadIsMember(Flat(g.edges));
    assert forall t :: t in Flat(g.edges) ==> t in EdgeSet(g.edges) && t.from in g.nodes;
    BeginAtZero(g.edges);
  }

  /** `clear()` leaves a graph equal to a freshly constructed one. */
  lemma ClearIsFresh(g: Graph)
    ensures Clear(g) == NewGraph()
  {
  }
}
