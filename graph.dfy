/**
 * The knowledge graph engine: an in-memory labelled property graph with a
 * property index, adjacency lists and a breadth-first shortest-path query.
 *
 * The engine owns four containers, updated in place by its methods:
 * `nodes` (id -> node), `edges` (every edge ever added, in order),
 * `adjacency` (id -> the edges touching that node, as indices into `edges`)
 * and `indexes` (property key -> value -> ids). Every failure is silent: a
 * mutation that names an unknown node changes nothing, and a query returns
 * an empty result or `None`.
 */
module Graph {
  import opened Records
  import opened Incidence
  import opened PropertyIndex
  import opened Traversal

  /** Each node is stored under its own id. */
  ghost predicate StoredById(nodes: map<string, NodeRec>)
  {
    forall id :: id in nodes ==> nodes[id].id == id
  }

  /**
   * The adjacency lists are kept for exactly the nodes `ids`, every edge
   * joins two of them, and each list holds exactly the edges touching its
   * node, in insertion order.
   */
  ghost predicate AdjacencyInv(ids: set<string>, edges: seq<EdgeRec>, adjacency: map<string, seq<nat>>)
  {
    && adjacency.Keys == ids
    && EdgesWithin(edges, ids)
    && forall id :: id in adjacency ==> adjacency[id] == Incident(edges, id)
  }

  /**
   * The index names only known nodes, and every current property value of
   * a node is recorded in it.
   */
  ghost predicate IndexInv(nodes: map<string, NodeRec>, indexes: Index)
  {
    && (forall k, v, id :: id in Bucket(indexes, k, v) ==> id in nodes)
    && (forall id, k :: id in nodes && k in nodes[id].properties ==>
          id in Bucket(indexes, k, nodes[id].properties[k]))
  }

  /** The engine's invariant over its four containers. */
  ghost predicate GraphInv(nodes: map<string, NodeRec>, edges: seq<EdgeRec>, indexes: Index,
                           adjacency: map<string, seq<nat>>)
  {
    StoredById(nodes) && AdjacencyInv(nodes.Keys, edges, adjacency) && IndexInv(nodes, indexes)
  }

  /**
   * The adjacency lists after edge number `i` from `start` to `end` is
   * recorded: `i` is appended to the list of `start` and then to the list
   * of `end`. Each list gains one entry per endpoint equal to its node, so
   * a self-loop is appended twice to its one list and every other list is
   * as it was.
   */
  function Attach(adjacency: map<string, seq<nat>>, start: string, end: string, i: nat): (r: map<string, seq<nat>>)
    requires start in adjacency && end in adjacency
    ensures r.Keys == adjacency.Keys
    ensures forall v :: v in adjacency ==>
              r[v] == adjacency[v] + ((if v == start then [i] else []) + (if v == end then [i] else []))
    ensures start == end ==> r[start] == adjacency[start] + [i, i]
  {
    var once := adjacency[start := adjacency[start] + [i]];
    once[end := once[end] + [i]]
  }

  /** Adding a node with a fresh id, no properties and an empty adjacency list keeps the invariant. */
  lemma AddNodeKeepsInv(nodes: map<string, NodeRec>, edges: seq<EdgeRec>, indexes: Index,
                        adjacency: map<string, seq<nat>>, id: string, kind: string)
    requires GraphInv(nodes, edges, indexes, adjacency) && id !in nodes
    ensures GraphInv(nodes[id := NodeRec(id, kind, map[])], edges, indexes, adjacency[id := []])
  {
    IncidentOfAbsent(edges, nodes.Keys, id);
    var nodes' := nodes[id := NodeRec(id, kind, map[])];
    assert EdgesWithin(edges, nodes'.Keys);
    assert AdjacencyInv(nodes'.Keys, edges, adjacency[id := []]);
    assert IndexInv(nodes', indexes);
  }

  /**
   * Recording a new edge between two of the nodes `ids` in the adjacency
   * lists of both endpoints keeps the lists equal to the edges touching
   * each node.
   */
  lemma AttachKeepsAdjacency(ids: set<string>, edges: seq<EdgeRec>, adjacency: map<string, seq<nat>>, e: EdgeRec)
    requires AdjacencyInv(ids, edges, adjacency) && e.start in ids && e.end in ids
    ensures AdjacencyInv(ids, edges + [e], Attach(adjacency, e.start, e.end, |edges|))
  {
    var lists := Attach(adjacency, e.start, e.end, |edges|);
    forall v | v in lists
      ensures lists[v] == Incident(edges + [e], v)
    {
      IncidentAppend(edges, e, v);
      assert lists[v] == adjacency[v] + Hits(|edges|, e, v);
    }
    assert EdgesWithin(edges + [e], ids) by {
      forall j | 0 <= j < |edges| + 1
        ensures (edges + [e])[j].start in ids && (edges + [e])[j].end in ids
      {
        if j < |edges| {
          assert (edges + [e])[j] == edges[j];
        }
      }
    }
  }

  /**
   * Appending an edge between known nodes, and its index to the adjacency
   * lists of both endpoints, keeps the invariant.
   */
  lemma AddEdgeKeepsInv(nodes: map<string, NodeRec>, edges: seq<EdgeRec>, indexes: Index,
                        adjacency: map<string, seq<nat>>, start: string, end: string, kind: string)
    requires GraphInv(nodes, edges, indexes, adjacency) && start in nodes && end in nodes
    ensures GraphInv(nodes, edges + [EdgeRec(start, end, kind)], indexes, Attach(adjacency, start, end, |edges|))
  {
    AttachKeepsAdjacency(nodes.Keys, edges, adjacency, EdgeRec(start, end, kind));
  }

  /**
   * Setting a property of a known node and recording the node under the
   * new (key, value) pair keeps the invariant.
   */
  lemma AddPropertyKeepsInv(nodes: map<string, NodeRec>, edges: seq<EdgeRec>, indexes: Index,
                            adjacency: map<string, seq<nat>>, id: string, key: string, value: string)
    requires GraphInv(nodes, edges, indexes, adjacency) && id in nodes
    ensures GraphInv(nodes[id := AddProperty(nodes[id], key, value)], edges,
                     Indexed(indexes, key, value, id), adjacency)
  {
    var nodes' := nodes[id := AddProperty(nodes[id], key, value)];
    var indexes' := Indexed(indexes, key, value, id);
    assert nodes'.Keys == nodes.Keys;
    assert StoredById(nodes');
    forall k, v, x | x in Bucket(indexes', k, v)
      ensures x in nodes'
    {
      if k == key && v == value {
        assert Bucket(indexes', k, v) == Bucket(indexes, k, v) + [id];
      }
    }
    forall x, k | x in nodes' && k in nodes'[x].properties
      ensures x in Bucket(indexes', k, nodes'[x].properties[k])
    {
      var v := nodes'[x].properties[k];
      if k == key && v == value {
        assert Bucket(indexes', k, v) == Bucket(indexes, k, v) + [id];
      } else {
        assert x != id || k != key;
        assert nodes'[x].properties[k] == nodes[x].properties[k];
        assert Bucket(indexes', k, v) == Bucket(indexes, k, v);
      }
    }
  }

  /**
   * Overwriting a property leaves a stale index entry: after node `id` is
   * given `first` and then `second` for `key`, it is still recorded under
   * `first` although its current value is `second`, so a search for `first`
   * returns a node that no longer has it.
   */
  lemma OverwriteLeavesStaleEntry(nodes: map<string, NodeRec>, indexes: Index, id: string,
                                  key: string, first: string, second: string)
    requires id in nodes
    ensures var once := nodes[id := AddProperty(nodes[id], key, first)];
            var twice := once[id := AddProperty(once[id], key, second)];
            && id in Bucket(Indexed(Indexed(indexes, key, first, id), key, second, id), key, first)
            && twice[id].properties[key] == second
  {
    var idx := Indexed(indexes, key, first, id);
    assert Bucket(idx, key, first)[|Bucket(idx, key, first)| - 1] == id;
    if first != second {
      assert Bucket(Indexed(idx, key, second, id), key, first) == Bucket(idx, key, first);
    }
  }

  class KnowledgeGraph {
    var nodes: map<string, NodeRec>
    var edges: seq<EdgeRec>
    var indexes: Index
    var adjacency: map<string, seq<nat>>

    /** The engine's invariant, `GraphInv`, over the current containers. */
    ghost predicate Valid()
      reads this
    {
      GraphInv(nodes, edges, indexes, adjacency)
    }

    /** An empty graph. */
    constructor ()
      ensures Valid()
      ensures nodes == map[] && edges == [] && indexes == map[] && adjacency == map[]
    {
      nodes := map[];
      edges := [];
      indexes := map[];
      adjacency := map[];
    }

    /**
     * Adds a node with no properties and an empty adjacency list; an id
     * that is already present leaves the graph unchanged.
     */
    method AddNode(id: string, kind: string)
      requires Valid()
      modifies this
      ensures Valid()
      ensures nodes.Keys == old(nodes).Keys + {id} && edges == old(edges)
      ensures id in old(nodes) ==> unchanged(this)
      ensures id !in old(nodes) ==>
                && nodes == old(nodes)[id := NodeRec(id, kind, map[])]
                && adjacency == old(adjacency)[id := []]
                && edges == old(edges) && indexes == old(indexes)
    {
      if id !in nodes {
        AddNodeKeepsInv(nodes, edges, indexes, adjacency, id, kind);
        nodes := nodes[id := NodeRec(id, kind, map[])];
        adjacency := adjacency[id := []];
      }
    }

    /**
     * Adds an edge from `start` to `end` when both are known nodes: the edge
     * goes to the end of `edges` and its index to the end of the adjacency
     * lists of `start` and of `end` (twice to one list for a self-loop).
     * Otherwise the graph is unchanged.
     */
    method AddEdge(start: string, end: string, kind: string)
      requires Valid()
      modifies this
      ensures Valid()
      ensures (start !in old(nodes) || end !in old(nodes)) ==> unchanged(this)
      ensures start in old(nodes) && end in old(nodes) ==>
                && edges == old(edges) + [EdgeRec(start, end, kind)]
                && adjacency == Attach(old(adjacency), start, end, |old(edges)|)
                && nodes == old(nodes) && indexes == old(indexes)
    {
      if start in nodes && end in nodes {
        var i := |edges|;
        ghost var edges0, lists0 := edges, adjacency;
        var lists := adjacency;
        lists := lists[start := lists[start] + [i]];
        lists := lists[end := lists[end] + [i]];
        assert lists == Attach(lists0, start, end, i);
        edges, adjacency := edges + [EdgeRec(start, end, kind)], lists;
        AddEdgeKeepsInv(nodes, edges0, indexes, lists0, start, end, kind);
      }
    }

    /**
     * Sets property `key` of node `id` to `value` and records `id` under
     * (`key`, `value`) in the index. The index only grows: the entry for an
     * overwritten value stays. An unknown id leaves the graph unchanged.
     */
    method AddNodeProperty(id: string, key: string, value: string)
      requires Valid()
      modifies this
      ensures Valid()
      ensures id !in old(nodes) ==> unchanged(this)
      ensures id in old(nodes) ==>
                && nodes == old(nodes)[id := AddProperty(old(nodes)[id], key, value)]
                && indexes == Indexed(old(indexes), key, value, id)
                && edges == old(edges) && adjacency == old(adjacency)
      ensures forall k, v :: Bucket(old(indexes), k, v) <= Bucket(indexes, k, v)
    {
      if id in nodes {
        AddPropertyKeepsInv(nodes, edges, indexes, adjacency, id, key, value);
        nodes := nodes[id := AddProperty(nodes[id], key, value)];
        indexes := Indexed(indexes, key, value, id);
      }
    }

    /**
     * The nodes recorded in the index under (`key`, `value`), one per
     * recorded id, in index order and with repeats kept; empty when the key
     * or the value was never indexed. Every node whose current value for
     * `key` is `value` is among them.
     */
    function SearchNodesByProperty(key: string, value: string): (r: seq<NodeRec>)
      reads this
      requires Valid()
      ensures (key !in indexes || value !in indexes[key]) ==> r == []
      ensures |r| == |Bucket(indexes, key, value)|
      ensures forall j :: 0 <= j < |r| ==>
                r[j].id == Bucket(indexes, key, value)[j] && r[j].id in nodes && nodes[r[j].id] == r[j]
      ensures forall id :: id in nodes && key in nodes[id].properties && nodes[id].properties[key] == value ==>
                nodes[id] in r
    {
      if key in indexes && value in indexes[key] then
        var ids := indexes[key][value];
        assert forall j :: 0 <= j < |ids| ==> ids[j] in Bucket(indexes, key, value);
        var r := seq(|ids|, j requires 0 <= j < |ids| && ids[j] in nodes reads this => nodes[ids[j]]);
        assert forall id :: id in ids ==> nodes[id] in r by {
          forall id | id in ids
            ensures nodes[id] in r
          {
            var j :| 0 <= j < |ids| && ids[j] == id;
            assert r[j] == nodes[id];
          }
        }
        r
      else
        []
    }

    /**
     * The edges touching node `id`, in the order they were added, a
     * self-loop twice; empty for an unknown id.
     */
    function SearchEdgesByNode(id: string): (r: seq<EdgeRec>)
      reads this
      requires AdjacencyInv(nodes.Keys, edges, adjacency)
      ensures r == Touching(edges, id)
      ensures forall e :: e in r <==> e in edges && Touches(e, id)
    {
      SelectIncident(edges, id);
      assert forall e :: e in Touching(edges, id) <==> e in edges && Touches(e, id) by {
        forall e
          ensures e in Touching(edges, id) <==> e in edges && Touches(e, id)
        {
          TouchingMember(edges, id, e);
        }
      }
      if id in adjacency then Select(edges, adjacency[id])
      else IncidentOfAbsent(edges, nodes.Keys, id); []
    }

    /**
     * Appends to `queue` an entry for each neighbour of `u` that is not in
     * `visited`, scanning the adjacency list of `u` in order.
     */
    method EnqueueNeighbours(u: string, path: seq<string>, visited: set<string>, queue: seq<Entry>)
      returns (queue': seq<Entry>)
      requires u in adjacency && forall k :: 0 <= k < |adjacency[u]| ==> adjacency[u][k] < |edges|
      ensures queue' == queue + Frontier(edges, adjacency[u], u, path, visited)
    {
      var ix := adjacency[u];
      queue' := queue;
      var j := 0;
      while j < |ix|
        invariant 0 <= j <= |ix|
        invariant queue' == queue + Frontier(edges, ix[..j], u, path, visited)
      {
        var neighbour := Other(edges[ix[j]], u);
        assert ix[..j + 1][..j] == ix[..j];
        assert Frontier(edges, ix[..j + 1], u, path, visited) ==
               Frontier(edges, ix[..j], u, path, visited) +
               (if neighbour !in visited then [Entry(neighbour, path + [neighbour])] else []);
        if neighbour !in visited {
          queue' := queue' + [Entry(neighbour, path + [neighbour])];
        }
        j := j + 1;
      }
      assert ix[..j] == ix;
    }

    /**
     * Breadth-first search for a path from `start` to `goal`: the result is
     * the reference query `ShortestPath`, so it is `None` when either node
     * is unknown or no walk joins them, and otherwise a walk from `start` to
     * `goal` with no repeated node and with no walk between them shorter,
     * `[start]` when the two are equal; among the shortest walks, the one the
     * adjacency lists reach first. The search reads only the node ids, the
     * edges and the adjacency lists, so it needs only the adjacency part of
     * the invariant.
     */
    method FindShortestPath(start: string, goal: string) returns (r: Option<seq<string>>)
      requires AdjacencyInv(nodes.Keys, edges, adjacency)
      ensures r == ShortestPath(edges, nodes.Keys, start, goal)
      ensures (start !in nodes || goal !in nodes) ==> r == None
      ensures start in nodes && start == goal ==> r == Some([start])
      ensures r.Some? ==> WalkFrom(edges, r.value, start) && Last(r.value) == goal && Distinct(r.value)
      ensures r.Some? ==> forall q :: WalkFrom(edges, q, start) && Last(q) == goal ==> |r.value| <= |q|
      ensures r.None? && start in nodes && goal in nodes ==>
                forall q :: WalkFrom(edges, q, start) ==> Last(q) != goal
    {
      ShortestPathCorrect(edges, nodes.Keys, start, goal);
      if start !in nodes || goal !in nodes {
        return None;
      }
      var queue := [Entry(start, [start])];
      var visited: set<string> := {};
      ghost var answer := Search(edges, nodes.Keys, goal, queue, visited);
      while queue != []
        invariant Within(queue, nodes.Keys)
        invariant Search(edges, nodes.Keys, goal, queue, visited) == answer
        decreases |nodes.Keys - visited|, |queue|
      {
        ghost var before, seen := queue, visited;
        var Entry(current, path) := queue[0];
        queue := queue[1..];
        if current == goal {
          return Some(path);
        }
        if current !in visited {
          SearchExpand(edges, nodes.Keys, goal, before, seen);
          visited := visited + {current};
          queue := EnqueueNeighbours(current, path, visited, queue);
          assert queue == before[1..] + Frontier(edges, Incident(edges, current), current, path, visited);
        } else {
          SearchSkip(edges, nodes.Keys, goal, before, seen);
        }
      }
      return None;
    }
  }
}
