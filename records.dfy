/**
 * The passive records of the knowledge graph: nodes and edges.
 *
 * A node carries its id, a kind (the label of the node; `label` is a
 * reserved word in Dafny) and a property map. An edge names its two
 * endpoints by id: node ids never change and nodes are never deleted, so an
 * id stands for the node object the edge would otherwise point to.
 */
module Records {

  /** A node: `id` is stable for the node's lifetime; `properties` maps keys to values. */
  datatype NodeRec = NodeRec(id: string, kind: string, properties: map<string, string>)

  /** An edge between the nodes `start` and `end`, stored in that order. */
  datatype EdgeRec = EdgeRec(start: string, end: string, kind: string)

  /** True when `v` is one of the endpoints of `e`. */
  predicate Touches(e: EdgeRec, v: string)
  {
    e.start == v || e.end == v
  }

  /** True when `e` connects `u` and `w`, read in either direction. */
  predicate Joins(e: EdgeRec, u: string, w: string)
  {
    (e.start == u && e.end == w) || (e.end == u && e.start == w)
  }

  /**
   * Sets one property of a node, overwriting an earlier value for the same
   * key; id, kind and every other property are kept.
   */
  function AddProperty(n: NodeRec, key: string, value: string): (r: NodeRec)
    ensures r.id == n.id && r.kind == n.kind
    ensures key in r.properties && r.properties[key] == value
    ensures r.properties.Keys == n.properties.Keys + {key}
    ensures forall k :: k in n.properties && k != key ==> r.properties[k] == n.properties[k]
  {
    n.(properties := n.properties[key := value])
  }

  /**
   * The neighbour reached from `u` over `e`: the end node when `u` is the
   * start node, and the start node otherwise. For an edge touching `u` this
   * is the one node that `e` joins to `u` (`u` itself for a self-loop).
   */
  function Other(e: EdgeRec, u: string): (w: string)
    ensures Touches(e, u) ==> Joins(e, u, w)
    ensures forall x :: Joins(e, u, x) ==> x == w
  {
    if e.start == u then e.end else e.start
  }
}
