/**
 * A worked example of the shortest-path query: the tie between two
 * shortest paths in a diamond.
 */
module Scenarios {
  import opened Records
  import opened Incidence
  import opened Traversal
  import opened Graph

  /**
   * A diamond over four distinct nodes: `s` is joined first to `a` and then
   * to `b`, and then `a` and `b` are each joined to `t`.
   */
  function Diamond(s: string, a: string, b: string, t: string): seq<EdgeRec>
  {
    [EdgeRec(s, a, "link"), EdgeRec(s, b, "link"), EdgeRec(a, t, "link"), EdgeRec(b, t, "link")]
  }

  predicate AllDistinct(s: string, a: string, b: string, t: string)
  {
    s != a && s != b && s != t && a != b && a != t && b != t
  }

  /** The adjacency list of `v` over one edge. */
  lemma IncidentOfOne(e0: EdgeRec, v: string)
    ensures Incident([e0], v) == Hits(0, e0, v)
  {
    var none: seq<EdgeRec> := [];
    assert [e0] == none + [e0];
    IncidentAppend(none, e0, v);
  }

  /** The adjacency list of `v` over two edges. */
  lemma IncidentOfTwo(e0: EdgeRec, e1: EdgeRec, v: string)
    ensures Incident([e0, e1], v) == Hits(0, e0, v) + Hits(1, e1, v)
  {
    IncidentOfOne(e0, v);
    assert [e0, e1] == [e0] + [e1];
    IncidentAppend([e0], e1, v);
  }

  /** The adjacency list of `v` over three edges. */
  lemma IncidentOfThree(e0: EdgeRec, e1: EdgeRec, e2: EdgeRec, v: string)
    ensures Incident([e0, e1, e2], v) == Hits(0, e0, v) + Hits(1, e1, v) + Hits(2, e2, v)
  {
    IncidentOfTwo(e0, e1, v);
    assert [e0, e1, e2] == [e0, e1] + [e2];
    IncidentAppend([e0, e1], e2, v);
  }

  /** The adjacency list of `v` over four edges. */
  lemma IncidentOfFour(e0: EdgeRec, e1: EdgeRec, e2: EdgeRec, e3: EdgeRec, v: string)
    ensures Incident([e0, e1, e2, e3], v) == Hits(0, e0, v) + Hits(1, e1, v) + Hits(2, e2, v) + Hits(3, e3, v)
  {
    IncidentOfThree(e0, e1, e2, v);
    assert [e0, e1, e2, e3] == [e0, e1, e2] + [e3];
    IncidentAppend([e0, e1, e2], e3, v);
  }

  /** Scanning two edge indices appends at most one entry for each, in order. */
  lemma FrontierOfTwo(es: seq<EdgeRec>, i: nat, j: nat, u: string, p: seq<string>, seen: set<string>)
    requires i < |es| && j < |es|
    ensures var w, x := Other(es[i], u), Other(es[j], u);
            Frontier(es, [i, j], u, p, seen) ==
              (if w !in seen then [Entry(w, p + [w])] else []) + (if x !in seen then [Entry(x, p + [x])] else [])
  {
    var w, x := Other(es[i], u), Other(es[j], u);
    assert [i, j][..1] == [i] && [i][..0] == [];
    assert Frontier(es, [i], u, p, seen) == (if w !in seen then [Entry(w, p + [w])] else []);
    assert Frontier(es, [i, j], u, p, seen) ==
           Frontier(es, [i], u, p, seen) + (if x !in seen then [Entry(x, p + [x])] else []);
  }

  /** Every edge of the diamond joins two of its corners. */
  lemma DiamondWithin(s: string, a: string, b: string, t: string)
    ensures EdgesWithin(Diamond(s, a, b, t), {s, a, b, t})
  {
  }

  /** The adjacency list of `v` in the diamond, one hit per endpoint equal to `v`. */
  lemma DiamondList(s: string, a: string, b: string, t: string, v: string)
    ensures Incident(Diamond(s, a, b, t), v) ==
            Hits(0, EdgeRec(s, a, "link"), v) + Hits(1, EdgeRec(s, b, "link"), v) +
            Hits(2, EdgeRec(a, t, "link"), v) + Hits(3, EdgeRec(b, t, "link"), v)
  {
    IncidentOfFour(EdgeRec(s, a, "link"), EdgeRec(s, b, "link"), EdgeRec(a, t, "link"), EdgeRec(b, t, "link"), v);
  }

  /** In the diamond, the adjacency list of `s` holds its edges to `a` and `b`, in that order. */
  lemma SourceList(s: string, a: string, b: string, t: string)
    requires AllDistinct(s, a, b, t)
    ensures Incident(Diamond(s, a, b, t), s) == [0, 1]
  {
    DiamondList(s, a, b, t, s);
  }

  /** In the diamond, the adjacency list of `a` holds its edges from `s` and to `t`, in that order. */
  lemma FirstList(s: string, a: string, b: string, t: string)
    requires AllDistinct(s, a, b, t)
    ensures Incident(Diamond(s, a, b, t), a) == [0, 2]
  {
    DiamondList(s, a, b, t, a);
  }

  /** In the diamond, the adjacency list of `b` holds its edges from `s` and to `t`, in that order. */
  lemma SecondList(s: string, a: string, b: string, t: string)
    requires AllDistinct(s, a, b, t)
    ensures Incident(Diamond(s, a, b, t), b) == [1, 3]
  {
    DiamondList(s, a, b, t, b);
  }

  /** In the diamond, the adjacency list of `t` holds its edges from `a` and `b`, in that order. */
  lemma TargetList(s: string, a: string, b: string, t: string)
    requires AllDistinct(s, a, b, t)
    ensures Incident(Diamond(s, a, b, t), t) == [2, 3]
  {
    DiamondList(s, a, b, t, t);
  }

  /** The edges and adjacency lists of the diamond: each list in the order its edges were added. */
  lemma DiamondShape(s: string, a: string, b: string, t: string)
    requires AllDistinct(s, a, b, t)
    ensures EdgesWithin(Diamond(s, a, b, t), {s, a, b, t})
    ensures Incident(Diamond(s, a, b, t), s) == [0, 1]
    ensures Incident(Diamond(s, a, b, t), a) == [0, 2]
    ensures Incident(Diamond(s, a, b, t), b) == [1, 3]
    ensures Incident(Diamond(s, a, b, t), t) == [2, 3]
  {
    DiamondWithin(s, a, b, t);
    SourceList(s, a, b, t);
    FirstList(s, a, b, t);
    SecondList(s, a, b, t);
    TargetList(s, a, b, t);
  }

  /** Expanding `s` queues `a`, then `b`. */
  lemma ExpandSource(s: string, a: string, b: string, t: string)
    requires AllDistinct(s, a, b, t)
    ensures EdgesWithin(Diamond(s, a, b, t), {s, a, b, t})
    ensures Search(Diamond(s, a, b, t), {s, a, b, t}, t, [Entry(s, [s])], {}) ==
            Search(Diamond(s, a, b, t), {s, a, b, t}, t, [Entry(a, [s, a]), Entry(b, [s, b])], {s})
  {
    var es, ids := Diamond(s, a, b, t), {s, a, b, t};
    DiamondWithin(s, a, b, t);
    SourceList(s, a, b, t);
    FrontierOfTwo(es, 0, 1, s, [s], {s});
    assert Other(es[0], s) == a && Other(es[1], s) == b;
    assert [s] + [a] == [s, a] && [s] + [b] == [s, b];
    var q := [Entry(s, [s])];
    var none: set<string> := {};
    assert none + {s} == {s} && q[1..] == [];
    assert q[1..] + Frontier(es, Incident(es, s), s, [s], none + {s}) == [Entry(a, [s, a]), Entry(b, [s, b])];
    SearchExpand(es, ids, t, q, none);
  }

  /** Expanding `a` skips the visited `s` and queues `t` by way of `a`. */
  lemma ExpandFirst(s: string, a: string, b: string, t: string)
    requires AllDistinct(s, a, b, t)
    ensures EdgesWithin(Diamond(s, a, b, t), {s, a, b, t})
    ensures Search(Diamond(s, a, b, t), {s, a, b, t}, t, [Entry(a, [s, a]), Entry(b, [s, b])], {s}) ==
            Search(Diamond(s, a, b, t), {s, a, b, t}, t, [Entry(b, [s, b]), Entry(t, [s, a, t])], {s, a})
  {
    var es, ids := Diamond(s, a, b, t), {s, a, b, t};
    DiamondWithin(s, a, b, t);
    FirstList(s, a, b, t);
    FrontierOfTwo(es, 0, 2, a, [s, a], {s, a});
    assert Other(es[0], a) == s && Other(es[2], a) == t;
    assert [s, a] + [t] == [s, a, t] && {s} + {a} == {s, a};
    assert Frontier(es, Incident(es, a), a, [s, a], {s} + {a}) == [Entry(t, [s, a, t])];
    var q := [Entry(a, [s, a]), Entry(b, [s, b])];
    SearchExpand(es, ids, t, q, {s});
    assert q[1..] == [Entry(b, [s, b])];
  }

  /** Expanding `b` queues `t` again, behind the entry by way of `a`. */
  lemma ExpandSecond(s: string, a: string, b: string, t: string)
    requires AllDistinct(s, a, b, t)
    ensures EdgesWithin(Diamond(s, a, b, t), {s, a, b, t})
    ensures Search(Diamond(s, a, b, t), {s, a, b, t}, t, [Entry(b, [s, b]), Entry(t, [s, a, t])], {s, a}) ==
            Search(Diamond(s, a, b, t), {s, a, b, t}, t, [Entry(t, [s, a, t]), Entry(t, [s, b, t])], {s, a, b})
  {
    var es, ids := Diamond(s, a, b, t), {s, a, b, t};
    DiamondWithin(s, a, b, t);
    SecondList(s, a, b, t);
    FrontierOfTwo(es, 1, 3, b, [s, b], {s, a, b});
    assert Other(es[1], b) == s && Other(es[3], b) == t;
    assert [s, b] + [t] == [s, b, t] && {s, a} + {b} == {s, a, b};
    assert Frontier(es, Incident(es, b), b, [s, b], {s, a} + {b}) == [Entry(t, [s, b, t])];
    var q := [Entry(b, [s, b]), Entry(t, [s, a, t])];
    SearchExpand(es, ids, t, q, {s, a});
    assert q[1..] == [Entry(t, [s, a, t])];
  }

  /**
   * Ties between shortest paths go to the edge added first: both `s`-`a`-`t`
   * and `s`-`b`-`t` are shortest, and the query returns the one through `a`,
   * whose edge from `s` was added before that of `b`.
   */
  lemma TieBreakByInsertionOrder(s: string, a: string, b: string, t: string)
    requires AllDistinct(s, a, b, t)
    ensures EdgesWithin(Diamond(s, a, b, t), {s, a, b, t})
    ensures ShortestPath(Diamond(s, a, b, t), {s, a, b, t}, s, t) == Some([s, a, t])
  {
    ExpandSource(s, a, b, t);
    ExpandFirst(s, a, b, t);
    ExpandSecond(s, a, b, t);
  }

  /** The diamond's edges are its four edges appended one at a time to the empty list. */
  lemma DiamondInOrder(s: string, a: string, b: string, t: string)
    ensures [] + [EdgeRec(s, a, "link")] + [EdgeRec(s, b, "link")] + [EdgeRec(a, t, "link")] + [EdgeRec(b, t, "link")]
            == Diamond(s, a, b, t)
  {
  }

  /** The diamond's nodes are its four nodes added one at a time to an empty set. */
  lemma CornersInOrder(none: set<string>, s: string, a: string, b: string, t: string)
    requires none == {}
    ensures none + {s} + {a} + {b} + {t} == {s, a, b, t}
  {
  }

  /** Adds the four nodes of the diamond to an empty graph. */
  method AddCorners(g: KnowledgeGraph, s: string, a: string, b: string, t: string)
    requires g.Valid() && g.nodes == map[] && g.edges == []
    modifies g
    ensures g.Valid() && g.nodes.Keys == {s, a, b, t} && g.edges == []
  {
    CornersInOrder(g.nodes.Keys, s, a, b, t);
    g.AddNode(s, "node");
    g.AddNode(a, "node");
    g.AddNode(b, "node");
    g.AddNode(t, "node");
  }

  /** Adds the four edges of the diamond, in order, to a graph holding just its nodes. */
  method AddDiamondEdges(g: KnowledgeGraph, s: string, a: string, b: string, t: string)
    requires g.Valid() && g.nodes.Keys == {s, a, b, t} && g.edges == []
    modifies g
    ensures g.Valid() && g.nodes.Keys == {s, a, b, t} && g.edges == Diamond(s, a, b, t)
  {
    g.AddEdge(s, a, "link");
    g.AddEdge(s, b, "link");
    g.AddEdge(a, t, "link");
    g.AddEdge(b, t, "link");
    DiamondInOrder(s, a, b, t);
  }

  /**
   * The same diamond built through the engine: four nodes, then the four
   * edges in the order above; the query returns the path by way of `a`.
   */
  method DiamondQuery(s: string, a: string, b: string, t: string) returns (r: Option<seq<string>>)
    requires AllDistinct(s, a, b, t)
    ensures r == Some([s, a, t])
  {
    var g := new KnowledgeGraph();
    AddCorners(g, s, a, b, t);
    AddDiamondEdges(g, s, a, b, t);
    TieBreakByInsertionOrder(s, a, b, t);
    r := g.FindShortestPath(s, t);
  }
}
