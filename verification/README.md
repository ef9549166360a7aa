# gdwg::graph in Dafny

A model of `gdwg::graph<N, E>`, a generic directed weighted multigraph kept
in one C++ header (`include/gdwg/graph.hpp`), with `N = E = int`. It covers
the node registry, the three-level sorted edge storage, the modifiers and
accessors, the bidirectional edge cursor `graph::iterator`, and the members
that take or return cursors.

Layout (one module per file):

- `results.dfy` (`Results`): `Option` and `Result`. A C++ `throw std::runtime_error`
  becomes `Err`, and `Gdwg.Message` gives the exact text of each message.
- `sorted_seq.dfy` (`SortedSeq`): strictly increasing `seq<int>`. This is the
  `std::set` of nodes and each weight set.
- `sorted_map.dfy` (`SortedMap`): a `seq<Entry<V>>` with strictly increasing
  keys. This is a `std::map` ordered by key value. The `shared_ptr` keys
  compare by pointee (`include/gdwg/graph.hpp:36-66`), so they are plain keys here.
- `adjacency.dfy` (`Adjacency`): the storage `source -> (destination ->
  weights)` and its invariant `WellFormed`: every level is sorted and no level
  is empty. It also defines three views of the storage:
  - `Flat`: the ascending sequence of `(from, to, weight)` triples.
  - `EdgeSet`: the set of those triples.
  - `Lookup`: the weights from one node to another.
- `edge_ops.dfy` (`EdgeOps`): the storage half of insert, erase,
  erase-node and rename, each stated on `EdgeSet`.
- `triples.dfy` (`Triples`): `graph::value_type` and its lexicographic order.
- `cursor.dfy` (`Cursors`): the iterator as an index triple. Its three indices
  are source, destination and weight. `End` is `src == |edges|`. `Pos` is the
  cursor's offset in `Flat`.
- `graph.dfy` (`Gdwg`): the graph, its invariant `Valid` (the registry is
  sorted, the storage well formed, and every endpoint is a node), and every
  modifier and accessor.
- `traversal.dfy` (`Traversal`): loops over cursors, written as methods:
  - forward and backward traversal;
  - `find`;
  - `erase_edge(iterator)` and `erase_edge(iterator, iterator)`;
  - `operator==`.
- `scenarios.dfy` (`Scenarios`): scenarios taken from the cases of `test/graph/graph_test1.cpp`, derived
  from the contracts.
- `findings.dfy` (`AsWritten`): four members as the C++ is written, each next to an
  input that shows where it departs from the intended behaviour.

Where the header's code departs from its own comments, its tests or the
storage invariant, the model follows the intended behaviour. `## Findings`
lists each such place.

## Model

| member | source | states |
|---|---|---|
| SortedSeq.Insert | include/gdwg/graph.hpp:142-150 | the node set after insertion is ascending and holds exactly the old nodes plus the new one; a present value changes nothing |
| SortedSeq.Remove | include/gdwg/graph.hpp:223-224 | erasing a node keeps the set ascending and removes exactly that value; an absent value changes nothing |
| SortedSeq.SameElementsSameSeq | include/gdwg/graph.hpp:321-328 | two ascending duplicate-free sequences with the same elements are equal, so `nodes()` is determined by the node set |
| SortedMap.Put | include/gdwg/graph.hpp:163 | `map[k] = v` keeps keys ascending; the entries are `(k, v)` plus the old entries with other keys |
| SortedMap.Remove | include/gdwg/graph.hpp:225 | `map.erase(k)` keeps keys ascending and drops exactly the entry keyed `k` |
| SortedMap.RelabelKey | include/gdwg/graph.hpp:196-201 | re-keying an entry through extract/insert keeps keys ascending; each entry is an old one or the moved one under its new key; when `to` is free, `from` finds nothing afterwards, `to` finds what `from` held, and every other key finds what it found before |
| SortedMap.KeysMember | include/gdwg/graph.hpp:375-380 | a key is listed in map order exactly when lookup finds it |
| Triples.SameElementsSameSeq | include/gdwg/graph.hpp:460-465 | a strictly ascending triple sequence is determined by its elements |
| Adjacency.FlatSorted | include/gdwg/graph.hpp:460-465 | in well-formed storage, the nested order gives triples in strictly ascending (from, to, weight) order |
| Adjacency.EdgeSetLookup | include/gdwg/graph.hpp:467-481 | a triple is stored exactly when its weight is in the weight set under its source and destination |
| Adjacency.LookupIncreasing | include/gdwg/graph.hpp:336-347 | the weights under a source and destination are ascending, and non-empty exactly when both entries exist |
| Adjacency.ConnectedIffLookup | include/gdwg/graph.hpp:308-317 | two nodes are connected, meaning some stored triple joins them, exactly when their weight set is non-empty |
| EdgeOps.AddEdge | include/gdwg/graph.hpp:158-164 | adding a weight creates the entries it needs, keeps the storage well formed, and adds exactly that triple |
| EdgeOps.RemoveEdge | include/gdwg/graph.hpp:251-262 | removing a stored weight prunes an emptied weight set and an emptied source, keeps the storage well formed, and removes exactly that triple |
| EdgeOps.DropDestinationLookup | include/gdwg/graph.hpp:227-232 | after every destination `v` is dropped, lookups to `v` are empty and all others are unchanged |
| EdgeOps.DropNode | include/gdwg/graph.hpp:218-234 | erasing a node's storage keeps it well formed and removes exactly the triples with that node at either end |
| EdgeOps.RelabelDestinationsLookup | include/gdwg/graph.hpp:186-195 | after destination `from` is renamed to `to`, lookups to `to` give what lookups to `from` gave; lookups to `from` give nothing |
| EdgeOps.Relabel | include/gdwg/graph.hpp:186-204 | renaming a node in the storage keeps it well formed at every level; its effect on the edges is stated by `EdgeOps.RelabelEdgeSet` |
| EdgeOps.RelabelEdgeSet | include/gdwg/graph.hpp:171-208 | renaming a node in the storage maps the edge set to its image under renaming both endpoints |
| Cursors.Next | include/gdwg/graph.hpp:518-552 | `++` from a triple gives either another triple or `end()`, never a position outside the storage |
| Cursors.Prev | include/gdwg/graph.hpp:562-599 | `--` from any cursor but `begin()` lands on a stored triple |
| Cursors.Begin | include/gdwg/graph.hpp:386-396 | `begin()` is a valid cursor, and it is `end()` exactly when no edge is stored |
| Cursors.EndAtLength | include/gdwg/graph.hpp:398-400 | `end()` is a valid cursor one past the offset of the last stored triple |
| Cursors.Deref | include/gdwg/graph.hpp:507-513 | `operator*` on a cursor at a weight yields a stored edge |
| Cursors.DerefAtPos | include/gdwg/graph.hpp:507-513 | `operator*` reads the triple at the cursor's offset in the ascending enumeration |
| Cursors.PosOrdered | include/gdwg/graph.hpp:487-505 | a cursor lexicographically before another, by source, destination and weight index, sits at a smaller offset |
| Cursors.PosInjective | include/gdwg/graph.hpp:609 | cursor equality is position equality: two valid cursors at the same offset are equal |
| Cursors.BeginAtZero | include/gdwg/graph.hpp:386-396 | `begin()` is valid, sits at offset 0, and equals `end()` exactly when no edge is stored |
| Cursors.NextAdvances | include/gdwg/graph.hpp:518-552 | `++` moves exactly one triple forward, across weight, destination and source boundaries |
| Cursors.PrevRetreats | include/gdwg/graph.hpp:562-599 | `--` moves exactly one triple back, including from `end()` to the last triple |
| Cursors.PrevOfNext | include/gdwg/graph.hpp:518-599 | `--` undoes `++` on every non-end cursor |
| Cursors.NextOfPrev | include/gdwg/graph.hpp:518-599 | `++` undoes `--` on every cursor other than `begin()` |
| Cursors.TraversalFromBegin | include/gdwg/graph.hpp:386-401 | from `begin()`, the n-th increment reads the n-th smallest stored triple; after all of them the cursor is `end()` |
| Gdwg.NewGraph | include/gdwg/graph.hpp:69 | the default graph is valid, has no node and has no edge |
| Gdwg.FromNodes | include/gdwg/graph.hpp:73-86 | the list and range constructors give a valid graph whose nodes are exactly the given values, with no edge |
| Gdwg.InsertNode | include/gdwg/graph.hpp:142-150 | `insert_node(v)` is true exactly when `v` was not a node; afterwards `v` is a node; edges are untouched; on false nothing changes |
| Gdwg.InsertNodeTwice | include/gdwg/graph.hpp:142-150 | after `insert_node(v)`, `v` is a node, and a second `insert_node(v)` returns false and leaves the graph as it was |
| Gdwg.InsertEdge | include/gdwg/graph.hpp:153-168 | throws exactly when an endpoint is missing; is true exactly when the triple was new; afterwards the edge set gains exactly that triple and the nodes are unchanged |
| Gdwg.ReplaceNode | include/gdwg/graph.hpp:171-208 | false and no change when `new` is a node; throws when `old` is missing; otherwise `old` is replaced by `new` among the nodes and at every edge endpoint |
| Gdwg.EraseNode | include/gdwg/graph.hpp:218-234 | false and no change when `v` is absent; otherwise `v` and exactly the triples touching it go, and nothing else changes |
| Gdwg.EraseEdge | include/gdwg/graph.hpp:237-273 | throws exactly when an endpoint is missing; is true exactly when the triple was stored; removes exactly it; both nodes stay (comment at lines 264-265) |
| Gdwg.Clear | include/gdwg/graph.hpp:278-281 | `clear()` leaves a valid graph with no node and no edge |
| Gdwg.ClearIsFresh | include/gdwg/graph.hpp:278-281 | `clear()` gives the same graph as the default constructor |
| Gdwg.Nodes | include/gdwg/graph.hpp:321-328 | `nodes()` is ascending without duplicates and lists exactly the nodes |
| Gdwg.IsConnected | include/gdwg/graph.hpp:302-318 | throws exactly when an endpoint is missing; otherwise true exactly when some edge runs from `src` to `dst` |
| Gdwg.Weights | include/gdwg/graph.hpp:331-350 | throws exactly when an endpoint is missing; otherwise ascending, and `w` is listed exactly when `(src, dst, w)` is stored |
| Gdwg.Connections | include/gdwg/graph.hpp:365-382 | throws exactly when `src` is missing; otherwise ascending, and `d` is listed exactly when some edge runs from `src` to `d` |
| Gdwg.WeightsEmptyIffDisconnected | include/gdwg/graph.hpp:302-350 | for two nodes, `weights` is empty exactly when `is_connected` is false |
| Gdwg.EmptyGraphHasNoEdges | include/gdwg/graph.hpp:296-299 | a graph with no node stores no edge, and its `begin()` is its `end()` |
| Traversal.Forward | include/gdwg/graph.hpp:518-552 | walking from `begin()` to `end()` with `++` yields the edge set, strictly ascending, each triple once |
| Traversal.Backward | include/gdwg/graph.hpp:562-599 | walking from `end()` back to `begin()` with `--` yields the same triples in reverse |
| Traversal.Scan | include/gdwg/graph.hpp:355-361 | the scan stops at the cursor of the triple if it is stored, and at `end()` exactly when it is not |
| Traversal.Find | include/gdwg/graph.hpp:353-362 | `find` never throws; it returns `end()` exactly when the triple is absent, and otherwise a cursor reading that triple |
| Traversal.EraseAt | include/gdwg/graph.hpp:635-649 | erasing at a cursor removes exactly that triple from the enumeration; the returned cursor takes its position and so reads the next triple |
| Traversal.EraseEdgeAt | include/gdwg/graph.hpp:635-649 | `erase_edge(end())` is `end()` and changes nothing; otherwise it is `erase_edge` on the triple read, returns true, and the result cursor reads the following triple |
| Traversal.EraseSpan | include/gdwg/graph.hpp:651-659 | the range loop removes exactly the triples from `first` up to but not including `last` |
| Traversal.EraseRange | include/gdwg/graph.hpp:651-659 | `erase_edge(first, last)` keeps the graph valid, leaves the nodes, removes exactly the triples in `[first, last)`, and returns the cursor now reading `last`'s triple |
| Traversal.SameTraversal | include/gdwg/graph.hpp:413-428 | walking two traversals in lockstep returns true exactly when they yield the same triples, length included |
| Traversal.Equals | include/gdwg/graph.hpp:406-431 | graphs compare equal exactly when their `nodes()` agree and their traversals agree |
| Scenarios.InsertAll | test/graph/graph_test1.cpp:315-329 | inserting a list of triples between existing nodes adds exactly those triples, nodes unchanged |
| Scenarios.NodesAscending | test/graph/graph_test1.cpp:73-78 | a graph built from 1, 3, 4, 2 reports nodes 1, 2, 3, 4 |
| Scenarios.NoWeightsWithoutEdges | test/graph/graph_test1.cpp:301-313 | before any edge, `weights(1, 2)` is empty |
| Scenarios.WeightsOfInserted | test/graph/graph_test1.cpp:315-333 | after inserting triples into an edgeless graph, `weights(s, d)` is the ascending list of their weights from `s` to `d` |
| Scenarios.WeightsAscending | test/graph/graph_test1.cpp:315-333 | after the test's four insertions, `weights(1, 4)` is `[3, 5]` |
| Scenarios.TraversalOfInserted | test/graph/graph_test1.cpp:446-477 | after inserting triples into an edgeless graph, the traversal is those triples in ascending order, each once |
| Scenarios.TraversalOrder | test/graph/graph_test1.cpp:446-477 | after the test's three insertions, traversal reads (1, 1, 2), (1, 4, 3), (2, 4, 2) |
| AsWritten.EraseEdgeAsWritten | include/gdwg/graph.hpp:237-273 | the code as written agrees with the corrected member on throwing; it keeps the graph valid, removes at least the triple, and changes no node other than `src` |
| AsWritten.EraseEdgeLosesSource | include/gdwg/graph.hpp:264-268 | with the single edge 1 -> 2, the code as written erases node 1; the corrected member keeps it |
| AsWritten.ClearDestination | include/gdwg/graph.hpp:227-232 | the loop of `erase_node` as written removes `v` from every source's destinations and keeps every source entry; the stored triples are the old ones minus those into `v` |
| AsWritten.DropNodeAsWritten | include/gdwg/graph.hpp:223-232 | the storage half of `erase_node` as written: the source entries are the old ones other than `v`, none lists `v`, and the edge set is that of the corrected `EdgeOps.DropNode`, the old edges minus those touching `v` |
| AsWritten.DropNodeLeavesEmptySource | include/gdwg/graph.hpp:227-232 | erasing node 2 from the single edge 1 -> 2 leaves source 1 with no destination, so the storage is no longer well formed: the model's `Cursors.Begin` differs from `Cursors.End` yet reads no edge, and the source's `begin()` dereferences the end of source 1's empty destination map (`include/gdwg/graph.hpp:392-393`); the corrected member leaves empty storage |
| AsWritten.ReplaceNodeAsWritten | include/gdwg/graph.hpp:171-208 | the code as written agrees with the corrected member on throwing, the flag and the nodes, but leaves the edges alone unless the first source is `old` |
| AsWritten.ReplaceNodeMissesDestination | include/gdwg/graph.hpp:186-204 | renaming 2 to 3 in the single edge 1 -> 2 leaves an edge ending at 2, which is no longer a node |
| AsWritten.LockstepFlag | include/gdwg/graph.hpp:413-428 | unless one traversal is a proper prefix of the other, the flag loop returns true exactly when they are equal and non-empty, or equal with the flag already set; a mismatch, unequal lengths included, gives false |
| AsWritten.EqualsAsWritten | include/gdwg/graph.hpp:406-431 | `operator==` as written is true exactly when the nodes and traversals agree and the traversal is non-empty; the only case left out is equal nodes with one traversal a proper prefix of the other |
| AsWritten.EqualsAsWrittenNotReflexive | include/gdwg/graph.hpp:406-431 | a graph with one node and no edge compares unequal to itself under the flag loop as written, with the corrected `begin()` |

## Left out

- Copy and move constructors and assignments (`include/gdwg/graph.hpp:89-137`): with values, copying is the identity, and a move only resets the source.
- `merge_replace_node` (`include/gdwg/graph.hpp:211-215`): its body only checks an inverted precondition and merges nothing.
- `operator<<` (`include/gdwg/graph.hpp:436-456`): stream formatting of generic `N` and `E`.
- `shared_ptr` ownership and the transparent comparators: keys are compared by value, as the comparators do.
- Running time: the linear scans of `edge_exists` and `find` are modelled by their results only.
- Iterator invalidation: a cursor is a position in the graph it is used with. `Traversal.EraseEdgeAt` and `Traversal.EraseRange` return the position in the new graph, where the C++ returns the old iterator advanced.
- Undefined uses are excluded by preconditions:
  - `begin()` on storage without a source dereferences the end of `edges_` (`include/gdwg/graph.hpp:391-393`); on well-formed storage without edges (which then has no source) the model gives `end()`, as the comment at line 387 intends. On storage that is not well formed, such as a source with an empty destination map, the source's `begin()` is undefined too, and nothing is promised for the model's `Cursors.Begin` there.
  - Decrementing `begin()` is excluded (`c != Begin(es)`).
- Traversal.EraseRange: requires `first` not after `last`. With `first` after `last` the C++ loop (`include/gdwg/graph.hpp:651-659`) erases every edge from `first` onwards. It then stays at `end()`, because `erase_edge(end())` returns `end()` (`include/gdwg/graph.hpp:636-637`), and it never terminates. That non-terminating behaviour of the source is not modelled.
- The exception type is not modelled; only the message is (`Gdwg.Message`).
- `empty()` and `is_node()` are the predicates `Gdwg.IsEmpty` and `Gdwg.IsNode`; they have no contract of their own.
- AsWritten.EraseEdgeAsWritten: follows the `erase_node(src)` call but uses the corrected `erase_node`, so that the two defects stay apart; its contract states only containment of the edge set.
- AsWritten.EqualsAsWritten: when the nodes agree and one traversal is a proper prefix of the other, the loop dereferences `end()` of the shorter one. That case is excluded (`LockstepDefined`), and nothing is promised for it. The traversals are read through the model's `begin()`, not the source's. On storage without edges the source's `begin()` is undefined (`include/gdwg/graph.hpp:391-392`), so the unset flag is reached only with the corrected `begin()`.
- `test/graph/graph_test1.cpp:698-701` expects `empty()` after `erase_node(4)`. That holds only because the erroneous `erase_node(src)` inside `erase_edge` has already removed nodes 1 and 2. Under the corrected `Gdwg.EraseEdge`, nodes 1 and 2 remain.

## Findings

| source | as written | input that shows it | evidently intended | confidence | as-written member | corrected member |
|---|---|---|---|---|---|---|
| include/gdwg/graph.hpp:264-268 | `erase_edge` calls `erase_node(src)` once `src` has no destination left | nodes {1, 2}, edge (1, 2, 5); `erase_edge(1, 2, 5)` | the comment says the node stays in the node set; only the storage entry goes | high, not executed | AsWritten.EraseEdgeAsWritten, AsWritten.EraseEdgeLosesSource | Gdwg.EraseEdge |
| include/gdwg/graph.hpp:227-232 | `erase_node` drops `v` from every destination map but never drops a source left empty | nodes {1, 2}, edge (1, 2, 5); `erase_node(2)` | no empty level remains, so `begin()` is `end()` when no edge is left | high, not executed | AsWritten.DropNodeAsWritten, AsWritten.DropNodeLeavesEmptySource | EdgeOps.DropNode |
| include/gdwg/graph.hpp:186-204 | the loop renames destinations in copies and returns after the first source | nodes {1, 2}, edge (1, 2, 5); `replace_node(2, 3)` | every occurrence of `old`, as source or destination, becomes `new` | high, not executed | AsWritten.ReplaceNodeAsWritten, AsWritten.ReplaceNodeMissesDestination | Gdwg.ReplaceNode |
| include/gdwg/graph.hpp:407-430 | the flag starts at 0 and is only set by a matching pair, so two traversals with no edges compare unequal | nodes {1}, no edge; `g == g`. In the code as written, `begin()` on this empty storage is undefined first (`include/gdwg/graph.hpp:391-392`); the flag defect shows once `begin()` is corrected to give `end()` | equal nodes and equal traversals, the empty traversal included | medium, not executed | AsWritten.EqualsAsWritten, AsWritten.EqualsAsWrittenNotReflexive | Traversal.Equals |
