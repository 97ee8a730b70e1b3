/**
 * Which edges a node's adjacency list holds.
 *
 * Every edge is appended once to the list of its start node and once to the
 * list of its end node, at the moment it is added to the graph. So a node's
 * adjacency list is determined by the edge list alone: `Incident` gives it as
 * edge indices, `Touching` as the edge records themselves.
 */
module Incidence {
  import opened Records

  /** The entries one edge, at index `i`, contributes to the adjacency list of `v`. */
  function Hits(i: nat, e: EdgeRec, v: string): seq<nat>
  {
    (if e.start == v then [i] else []) + (if e.end == v then [i] else [])
  }

  /** How many times an edge occurs in the adjacency list of `v`: once per endpoint equal to `v`. */
  function HitCount(e: EdgeRec, v: string): nat
  {
    (if e.start == v then 1 else 0) + (if e.end == v then 1 else 0)
  }

  /**
   * The adjacency list of `v` as indices into `es`: the edges touching `v`,
   * in the order they were added, a self-loop on `v` twice.
   */
  function Incident(es: seq<EdgeRec>, v: string): (r: seq<nat>)
    ensures forall k :: 0 <= k < |r| ==> r[k] < |es| && Touches(es[r[k]], v)
    ensures forall j, k :: 0 <= j < k < |r| ==> r[j] <= r[k]
  {
    if es == [] then []
    else Incident(es[..|es| - 1], v) + Hits(|es| - 1, es[|es| - 1], v)
  }

  /** The edges of `es` touching `v` in insertion order, a self-loop twice. */
  function Touching(es: seq<EdgeRec>, v: string): seq<EdgeRec>
  {
    if es == [] then []
    else
      var e := es[|es| - 1];
      Touching(es[..|es| - 1], v) + (if e.start == v then [e] else []) + (if e.end == v then [e] else [])
  }

  /** The edge records that a list of edge indices refers to. */
  function Select(es: seq<EdgeRec>, ix: seq<nat>): (r: seq<EdgeRec>)
    requires forall k :: 0 <= k < |ix| ==> ix[k] < |es|
    ensures |r| == |ix| && forall k :: 0 <= k < |ix| ==> r[k] == es[ix[k]]
  {
    seq(|ix|, k requires 0 <= k < |ix| => es[ix[k]])
  }

  /** Adding an edge extends each adjacency list by that edge's hits and by nothing else. */
  lemma IncidentAppend(es: seq<EdgeRec>, e: EdgeRec, v: string)
    ensures Incident(es + [e], v) == Incident(es, v) + Hits(|es|, e, v)
  {
    assert (es + [e])[..|es|] == es;
  }

  /**
   * The adjacency list of `v` holds edge `i` exactly once per endpoint of
   * `es[i]` equal to `v`, and holds no index outside `es`.
   */
  lemma {:induction false} IncidentCount(es: seq<EdgeRec>, v: string, i: nat)
    ensures multiset(Incident(es, v))[i] == if i < |es| then HitCount(es[i], v) else 0
  {
    if es != [] {
      var n := |es| - 1;
      IncidentCount(es[..n], v, i);
      assert Incident(es, v) == Incident(es[..n], v) + Hits(n, es[n], v);
      assert multiset(Hits(n, es[n], v))[i] == if i == n then HitCount(es[n], v) else 0;
      if i < n {
        assert es[..n][i] == es[i];
      }
    }
  }

  /** An edge index is in the adjacency list of `v` exactly when that edge touches `v`. */
  lemma IncidentMember(es: seq<EdgeRec>, v: string, i: nat)
    ensures i in Incident(es, v) <==> i < |es| && Touches(es[i], v)
  {
    IncidentCount(es, v, i);
  }

  /**
   * Adjacency symmetry: an edge with two distinct endpoints is recorded once
   * for each endpoint; a self-loop is recorded twice for its one endpoint.
   */
  lemma AdjacencySymmetry(es: seq<EdgeRec>, i: nat)
    requires i < |es|
    ensures es[i].start != es[i].end ==>
              multiset(Incident(es, es[i].start))[i] == 1 && multiset(Incident(es, es[i].end))[i] == 1
    ensures es[i].start == es[i].end ==> multiset(Incident(es, es[i].start))[i] == 2
  {
    IncidentCount(es, es[i].start, i);
    IncidentCount(es, es[i].end, i);
  }

  /** Reading the edge records behind the adjacency list of `v` gives the edges touching `v`. */
  lemma {:induction false} SelectIncident(es: seq<EdgeRec>, v: string)
    ensures Select(es, Incident(es, v)) == Touching(es, v)
  {
    if es != [] {
      var n := |es| - 1;
      var pre := es[..n];
      var e := es[n];
      SelectIncident(pre, v);
      var a := Incident(pre, v);
      var h := Hits(n, e, v);
      assert Incident(es, v) == a + h;
      var lhs := Select(es, a + h);
      var rhs := Touching(es, v);
      assert rhs == Touching(pre, v) + (if e.start == v then [e] else []) + (if e.end == v then [e] else []);
      assert Select(pre, a) == Touching(pre, v);
      assert |lhs| == |rhs|;
      forall k | 0 <= k < |lhs|
        ensures lhs[k] == rhs[k]
      {
        if k < |a| {
          assert lhs[k] == es[a[k]] == pre[a[k]] == Select(pre, a)[k];
        } else {
          assert lhs[k] == es[h[k - |a|]] == e;
        }
      }
    }
  }

  /** An edge record is among those touching `v` exactly when it is in `es` and touches `v`. */
  lemma {:induction false} TouchingMember(es: seq<EdgeRec>, v: string, e: EdgeRec)
    ensures e in Touching(es, v) <==> e in es && Touches(e, v)
  {
    if es != [] {
      var n := |es| - 1;
      TouchingMember(es[..n], v, e);
      assert es == es[..n] + [es[n]];
    }
  }
}
