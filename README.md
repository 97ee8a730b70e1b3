# Knowledge graph engine, modelled in Dafny

This project models the `KnowledgeGraph` engine of `KG.py`: an in-memory labelled property graph. The engine keeps four containers:

- `nodes`: id to node;
- `edges`: every edge ever added, in order;
- `adjacency_list`: id to the edges touching that node;
- `indexes`: property key to value to the ids of the nodes given that value.

Its operations are:

- guarded insertion: `add_node`, `add_edge`, `add_node_property`;
- two exact-match lookups: `search_nodes_by_property`, `search_edges_by_node`;
- an unweighted shortest-path query, `find_shortest_path`. It is a breadth-first search over a FIFO queue of (id, path) pairs, with a visited set checked when an entry is taken off the queue.

Every failure is silent: a mutation naming an unknown node changes nothing, and a query returns an empty sequence or `None`.

Layout:

- `records.dfy` (`Records`): the `Node` and `Edge` records as values, and the neighbour-over-an-edge rule.
  - `kind` is the record's label; `label` is a reserved word in Dafny.
  - An edge names its endpoints by id. Nodes are never deleted and ids never change, so an id stands for the shared `Node` object the source stores.
- `incidence.dfy` (`Incidence`): what an adjacency list holds, as a function of the edge list alone.
  - `Incident` gives it as edge indices; `Touching` gives it as edge records.
- `index.dfy` (`PropertyIndex`): the append-only property index.
- `traversal.dfy` (`Traversal`): walks, the breadth-first search, and its invariant.
  - `Search`/`ShortestPath` is the reference search.
  - The invariant lemmas prove that the reference search returns a shortest simple walk, or `None` exactly when the target is unreachable.
- `graph.dfy` (`Graph`): the engine as a class with the four containers as fields, its invariant `GraphInv`, and one method or function per operation.
  - `adjacency` stores edge indices into `edges` where the source stores the `Edge` objects themselves.
- `scenarios.dfy` (`Scenarios`): the tie-break example of a diamond graph, both on the reference search and through the engine's own methods.

## Model

| member | source | states |
|---|---|---|
| Records.AddProperty | KG.py:9-10 | the key now maps to the value, the key set gains the key, every other property, the id and the label are kept |
| Records.Other | KG.py:85 | for an edge touching `u`, the result is the one node the edge joins to `u` (`u` itself for a self-loop) |
| Incidence.Incident | KG.py:44-45 | every entry of a node's adjacency list is an edge index touching that node, and the list is in insertion order |
| Incidence.Touching | KG.py:63-66 | the list the edge lookup returns: the edges touching a node in insertion order, a self-loop twice. It has no contract of its own; `Incidence.SelectIncident` and `Incidence.TouchingMember` state what it means |
| Incidence.IncidentAppend | KG.py:40-45 | adding an edge extends each node's adjacency list by exactly that edge's entries for the node and nothing else |
| Incidence.IncidentCount | KG.py:44-45 | a node's adjacency list holds edge `i` once per endpoint of `i` equal to the node, and no index outside the edge list |
| Incidence.IncidentMember | KG.py:44-45 | an edge index is in a node's adjacency list if and only if that edge touches the node |
| Incidence.AdjacencySymmetry | KG.py:44-45 | an edge with distinct endpoints is recorded once for each; a self-loop is recorded twice against its one node |
| Incidence.SelectIncident | KG.py:63-66 | the edge records behind a node's adjacency list are exactly the edges touching it, in insertion order |
| Incidence.TouchingMember | KG.py:63-66 | an edge is among those touching `v` if and only if it is in the edge list and touches `v` |
| PropertyIndex.Indexed | KG.py:51-55 | recording an id appends it to the end of its (key, value) bucket, creating missing levels; every other bucket is unchanged |
| PropertyIndex.Bucket | KG.py:58-60 | the two-level lookup of the index, empty when the key or the value is missing. It has no contract of its own; `PropertyIndex.Indexed` states how a bucket grows |
| PropertyIndex.RepeatedValueKept | KG.py:51-55 | setting the same (key, value) on a node twice leaves two entries for it: repeats are kept |
| Traversal.FrontierMembers | KG.py:84-87 | each entry the scan of a list appends is an unvisited neighbour over a listed edge with the path extended by it, and each such neighbour gets its entry |
| Traversal.Frontier | KG.py:84-87 | the entries the scan of an adjacency list appends, in list order. It has no contract of its own; `Traversal.FrontierMembers` and `Traversal.FrontierExpansion` state what it means |
| Traversal.FrontierExpansion | KG.py:84-87 | scanning a node's adjacency list appends exactly its unvisited neighbours, each with the path extended by it |
| Traversal.AdjacentByList | KG.py:84-85 | two nodes are adjacent if and only if the first node's adjacency list holds an edge joining them |
| Traversal.IncidentOfAbsent | KG.py:63-66 | a node outside the graph touches no edge |
| Traversal.FrontierWithin | KG.py:84-87 | the neighbours the scan enqueues are nodes of the graph |
| Traversal.Search | KG.py:75-89 | the search loop as a function of the queue and the visited set. It has no contract of its own; `Traversal.SearchSound` states what it returns |
| Traversal.ShortestPath | KG.py:68-89 | the whole query, `None` for an unknown endpoint and otherwise the search from the one-node path. It has no contract of its own; `Traversal.ShortestPathCorrect` states what it returns |
| Traversal.SearchSkip | KG.py:76-81 | taking off an entry whose node is visited leaves the search's outcome unchanged |
| Traversal.SearchExpand | KG.py:81-87 | expanding an unvisited node leaves the search's outcome unchanged and strictly shrinks the set of unvisited nodes, so the search terminates |
| Traversal.WalkPrefix | KG.py:87 | dropping the last node of a walk leaves a walk whose last node is adjacent to the dropped one |
| Traversal.WalkExtend | KG.py:87 | extending a walk by a neighbour of its last node gives a walk ending there |
| Traversal.ReachClosed | KG.py:75-89 | once the queue is empty, every node reachable from the start has been visited |
| Traversal.InitInv | KG.py:72-73 | the queue holding only (start, [start]) and an empty visited set satisfy the search invariant |
| Traversal.NotEnqueuedBelowFront | KG.py:75-87 | in the FIFO queue no entry's path is shorter than the front entry's |
| Traversal.SettledAfterPop | KG.py:76-87 | after a pop, every walk shorter than the new front entry's path ends at a visited node |
| Traversal.StepVisited | KG.py:76-81 | taking off an entry whose node is already visited keeps the search invariant |
| Traversal.ExtendEntry | KG.py:86-87 | a new entry is a walk from the start to its node without repeated nodes |
| Traversal.ExpandEntries | KG.py:81-87 | after an expansion every queued entry is a simple walk from the start whose inner nodes are visited |
| Traversal.ExpandLevels | KG.py:86-87 | queued path lengths stay non-decreasing and within one node of each other |
| Traversal.ExpandCovered | KG.py:81-87 | after an expansion, every neighbour of a visited node is visited or queued with a path no longer than the walk to it |
| Traversal.CoveredFromVisited | KG.py:76-87 | a neighbour of an earlier visited node stays queued after the pop |
| Traversal.CoveredFromFront | KG.py:81-87 | a new neighbour of the node just visited is queued with a path no longer than any walk to it |
| Traversal.StepExpand | KG.py:81-87 | taking off an unvisited entry, marking it visited and appending its frontier keeps the search invariant |
| Traversal.ExpandStep | KG.py:81-87 | the expansion step as the loop performs it keeps the invariant and shrinks the set of unvisited nodes |
| Traversal.FoundShortest | KG.py:78-79 | the first entry taken off for the target is a walk from the start to it with no repeated node and no walk shorter |
| Traversal.ExhaustedUnreachable | KG.py:89 | when the queue runs empty, no walk from the start reaches the target |
| Traversal.SearchSound | KG.py:75-89 | from any state satisfying the invariant, a returned path is a shortest simple walk to the target, and `None` means the target is unreachable |
| Traversal.ShortestPathCorrect | KG.py:68-89 | `None` for an unknown endpoint; `[s]` when start equals goal; otherwise a shortest walk with no repeated node, or `None` exactly when no walk joins them |
| Graph.Attach | KG.py:44-45 | each adjacency list gains the new edge once per endpoint equal to its node (a self-loop twice); keys are unchanged |
| Graph.AddNodeKeepsInv | KG.py:33-36 | adding a fresh node with no properties and an empty adjacency list keeps the graph invariant |
| Graph.AttachKeepsAdjacency | KG.py:40-45 | appending an edge between known nodes to the edge list and to both endpoint lists keeps every adjacency list equal to the edges touching its node |
| Graph.AddEdgeKeepsInv | KG.py:38-45 | adding an edge between known nodes keeps the graph invariant |
| Graph.AddPropertyKeepsInv | KG.py:47-55 | setting a property of a known node and indexing it keeps the graph invariant: indexed ids are nodes, current values are indexed |
| Graph.OverwriteLeavesStaleEntry | KG.py:47-61 | after a value is overwritten, the node is still indexed under the old value although its current value is the new one |
| Graph.KnowledgeGraph.constructor | KG.py:27-31 | a new graph has four empty containers and satisfies the invariant |
| Graph.KnowledgeGraph.AddNode | KG.py:33-36 | the key set gains the id; an existing id leaves the graph unchanged, a new one gets a node with no properties and an empty adjacency list; the invariant is kept |
| Graph.KnowledgeGraph.AddEdge | KG.py:38-45 | with an endpoint absent nothing changes; otherwise exactly one edge is appended and the adjacency lists become `Attach` of the old ones, with nodes and index unchanged; the invariant is kept |
| Graph.KnowledgeGraph.AddNodeProperty | KG.py:47-55 | an absent id changes nothing; otherwise that node's property is set and the id appended to its bucket; no bucket ever loses an entry; the invariant is kept |
| Graph.KnowledgeGraph.SearchNodesByProperty | KG.py:57-61 | one node per indexed id, in index order with repeats kept; empty when the key or value is absent; every node currently holding the pair is included |
| Graph.KnowledgeGraph.SearchEdgesByNode | KG.py:63-66 | the edges touching the node in insertion order (a self-loop twice); membership if and only if the edge touches it; empty for an unknown id |
| Graph.KnowledgeGraph.EnqueueNeighbours | KG.py:84-87 | the queue becomes the old queue followed by the frontier of the node's adjacency list, in list order |
| Graph.KnowledgeGraph.FindShortestPath | KG.py:68-89 | the result equals the reference query `ShortestPath`, so it is `None` for unknown endpoints or an unreachable goal, `[start]` when start equals goal, and otherwise a shortest simple walk |
| Scenarios.IncidentOfFour | KG.py:44-45 | the adjacency list of a node over four edges is their entries for it, in order |
| Scenarios.FrontierOfTwo | KG.py:84-87 | scanning two edges appends at most one entry for each, in order |
| Scenarios.DiamondShape | KG.py:40-45 | every diamond edge joins two corners, and the adjacency lists of all four corners list their edges in the order they were added |
| Scenarios.ExpandSource | KG.py:81-87 | expanding the source of the diamond queues its first neighbour before its second |
| Scenarios.ExpandFirst | KG.py:81-87 | expanding the first neighbour queues the target by way of it |
| Scenarios.ExpandSecond | KG.py:81-87 | expanding the second neighbour queues the target again, behind the first entry |
| Scenarios.TieBreakByInsertionOrder | KG.py:72-89 | of two shortest paths, the query returns the one through the neighbour whose edge was added first |
| Scenarios.AddCorners | KG.py:33-36 | adding four nodes to an empty graph gives exactly those nodes and no edges |
| Scenarios.AddDiamondEdges | KG.py:38-45 | adding the four edges in order gives exactly the diamond's edge list |
| Scenarios.DiamondQuery | KG.py:68-89 | the engine built through its own methods answers the diamond query with the path through the first-added neighbour |

## Left out

- `Node.__str__`, `Edge.__str__` and `KnowledgeGraph.__str__` (KG.py:12-13, 22-23, 91-94) are display formatting only.
- The script at KG.py:96-130 loads a JSON file and prints results. File I/O and printing are outside the engine; the diamond scenario exercises the engine instead.
- Python object identity is replaced by lookup:
  - an edge holds its endpoint ids rather than references to `Node` objects;
  - an adjacency list holds indices into `edges` rather than `Edge` references.
  - Nodes are never deleted and ids never change, so the two readings agree; aliasing itself is not modelled.
- The `deque` is a sequence: pop-front is `queue[1..]` and append is `+`.
- The insertion order of a node's `properties` dict is not modelled; properties are a Dafny `map`.
- Graph.KnowledgeGraph.FindShortestPath: requires only the adjacency part of the invariant (`AdjacencyInv`), since the search never reads the nodes' properties or the index.
- Graph.KnowledgeGraph.SearchEdgesByNode: requires only `AdjacencyInv` for the same reason; every reachable state meets it, so the lookup is total on the engine's states as in the source.
- Graph.KnowledgeGraph.SearchNodesByProperty: requires the invariant, because the source fails with a lookup error if the index held an id that is not a node. The invariant, kept by every mutator, rules that out.
- Traversal.ShortestPathCorrect: the tie-break among equal-length paths is stated as a general law only through the reference search `Search` itself. `Scenarios.TieBreakByInsertionOrder` proves it for the diamond.
