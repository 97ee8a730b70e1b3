/**
 * Walks over the undirected view of the edge list, and the invariant of the
 * breadth-first search that looks for a shortest one.
 *
 * The search keeps a first-in-first-out queue of (node, path) entries,
 * seeded with (start, [start]), and a visited set that is checked when an
 * entry is taken off the queue. The lemmas below show that each step of the
 * search keeps `SearchInv`, and what `SearchInv` says when the search stops:
 * the first path found for the target is a shortest walk, and an empty queue
 * means that no walk reaches the target at all.
 */
module Traversal {
  import opened Records
  import opened Incidence

  datatype Option<T> = None | Some(value: T)

  /** A queue entry: a node and the path by which the search reached it. */
  datatype Entry = Entry(node: string, path: seq<string>)

  /** Every edge of `es` has both endpoints in `ids`. */
  predicate EdgesWithin(es: seq<EdgeRec>, ids: set<string>)
  {
    forall i :: 0 <= i < |es| ==> es[i].start in ids && es[i].end in ids
  }

  /** Some edge of `es` joins `u` and `w`, in either direction. */
  predicate Adjacent(es: seq<EdgeRec>, u: string, w: string)
  {
    exists i :: 0 <= i < |es| && Joins(es[i], u, w)
  }

  /** A non-empty sequence of nodes, each adjacent to the next. */
  predicate Walk(es: seq<EdgeRec>, p: seq<string>)
  {
    |p| > 0 && forall j :: 0 <= j < |p| - 1 ==> Adjacent(es, p[j], p[j + 1])
  }

  /** A walk that begins at `s`. */
  predicate WalkFrom(es: seq<EdgeRec>, p: seq<string>, s: string)
  {
    Walk(es, p) && p[0] == s
  }

  function Last(p: seq<string>): string
    requires |p| > 0
  {
    p[|p| - 1]
  }

  /** No node occurs twice in `p`. */
  predicate Distinct(p: seq<string>)
  {
    forall j, k :: 0 <= j < k < |p| ==> p[j] != p[k]
  }

  /**
   * The entries that expanding `u`, reached by `p`, appends to the queue:
   * for each edge index of `ix` in order, the neighbour over that edge with
   * its extended path, unless the neighbour is in `seen`.
   */
  function Frontier(es: seq<EdgeRec>, ix: seq<nat>, u: string, p: seq<string>, seen: set<string>): seq<Entry>
    requires forall k :: 0 <= k < |ix| ==> ix[k] < |es|
  {
    if ix == [] then []
    else
      var w := Other(es[ix[|ix| - 1]], u);
      Frontier(es, ix[..|ix| - 1], u, p, seen) + (if w !in seen then [Entry(w, p + [w])] else [])
  }

  /**
   * Each entry of the frontier is an unseen neighbour over one of the edges
   * of `ix`, with `p` extended by it; and each unseen neighbour over an edge
   * of `ix` has its entry in the frontier.
   */
  lemma {:induction false} FrontierMembers(es: seq<EdgeRec>, ix: seq<nat>, u: string, p: seq<string>, seen: set<string>)
    requires forall k :: 0 <= k < |ix| ==> ix[k] < |es|
    ensures forall e :: e in Frontier(es, ix, u, p, seen) ==>
              && e.path == p + [e.node]
              && e.node !in seen
              && exists k :: 0 <= k < |ix| && e.node == Other(es[ix[k]], u)
    ensures forall k :: 0 <= k < |ix| && Other(es[ix[k]], u) !in seen ==>
              Entry(Other(es[ix[k]], u), p + [Other(es[ix[k]], u)]) in Frontier(es, ix, u, p, seen)
  {
    if ix != [] {
      var n := |ix| - 1;
      var pre := ix[..n];
      FrontierMembers(es, pre, u, p, seen);
      var w := Other(es[ix[n]], u);
      var r := Frontier(es, ix, u, p, seen);
      assert r == Frontier(es, pre, u, p, seen) + (if w !in seen then [Entry(w, p + [w])] else []);
      forall e | e in r
        ensures exists k :: 0 <= k < |ix| && e.node == Other(es[ix[k]], u)
      {
        if e in Frontier(es, pre, u, p, seen) {
          var k :| 0 <= k < |pre| && e.node == Other(es[pre[k]], u);
          assert pre[k] == ix[k];
        } else {
          assert e.node == Other(es[ix[n]], u);
        }
      }
      forall k | 0 <= k < |ix| && Other(es[ix[k]], u) !in seen
        ensures Entry(Other(es[ix[k]], u), p + [Other(es[ix[k]], u)]) in r
      {
        if k < n {
          assert pre[k] == ix[k];
        }
      }
    }
  }

  /**
   * What the search needs of the entries `added` when it expands `u`: each
   * is an unseen neighbour of `u` with `p` extended by it, and every unseen
   * neighbour of `u` is among them.
   */
  ghost predicate Expansion(es: seq<EdgeRec>, u: string, p: seq<string>, seen: set<string>, added: seq<Entry>)
  {
    && (forall e :: e in added ==> e.path == p + [e.node] && e.node !in seen && Adjacent(es, u, e.node))
    && (forall w :: Adjacent(es, u, w) && w !in seen ==> Entry(w, p + [w]) in added)
  }

  /** Scanning the adjacency list of `u` finds exactly the neighbours of `u`. */
  lemma FrontierExpansion(es: seq<EdgeRec>, u: string, p: seq<string>, seen: set<string>)
    ensures Expansion(es, u, p, seen, Frontier(es, Incident(es, u), u, p, seen))
  {
    var ix := Incident(es, u);
    var r := Frontier(es, ix, u, p, seen);
    FrontierMembers(es, ix, u, p, seen);
    forall e | e in r
      ensures Adjacent(es, u, e.node)
    {
      var k :| 0 <= k < |ix| && e.node == Other(es[ix[k]], u);
      assert Joins(es[ix[k]], u, e.node);
    }
    forall w | Adjacent(es, u, w) && w !in seen
      ensures Entry(w, p + [w]) in r
    {
      var i :| 0 <= i < |es| && Joins(es[i], u, w);
      IncidentMember(es, u, i);
      var k :| 0 <= k < |ix| && ix[k] == i;
      assert Other(es[ix[k]], u) == w;
    }
  }

  /**
   * Two nodes are adjacent exactly when the adjacency list of the first
   * holds an edge joining them, so consecutive nodes of a walk are joined
   * by an edge from the first node's list.
   */
  lemma AdjacentByList(es: seq<EdgeRec>, u: string, w: string)
    ensures Adjacent(es, u, w) <==> exists i :: i in Incident(es, u) && Joins(es[i], u, w)
  {
    if Adjacent(es, u, w) {
      var i :| 0 <= i < |es| && Joins(es[i], u, w);
      IncidentMember(es, u, i);
    }
  }

  /** No edge touches a node outside the set that holds every edge's endpoints. */
  lemma IncidentOfAbsent(es: seq<EdgeRec>, ids: set<string>, v: string)
    requires EdgesWithin(es, ids) && v !in ids
    ensures Incident(es, v) == []
  {
  }

  /** Every entry of `queue` names one of the nodes `ids`. */
  predicate Within(queue: seq<Entry>, ids: set<string>)
  {
    forall e :: e in queue ==> e.node in ids
  }

  /** The frontier of a scan over edges between nodes of `ids` names only nodes of `ids`. */
  lemma FrontierWithin(es: seq<EdgeRec>, ids: set<string>, ix: seq<nat>, u: string, p: seq<string>, seen: set<string>)
    requires EdgesWithin(es, ids) && forall k :: 0 <= k < |ix| ==> ix[k] < |es|
    ensures Within(Frontier(es, ix, u, p, seen), ids)
  {
    FrontierMembers(es, ix, u, p, seen);
  }

  /**
   * The breadth-first search from a given queue and visited set: take off
   * the front entry; stop with its path when its node is the target `t`;
   * skip it when its node is visited; otherwise mark the node visited and
   * append the entries for its unvisited neighbours, in the order of its
   * adjacency list. `None` when the queue runs empty.
   */
  function Search(es: seq<EdgeRec>, ids: set<string>, t: string, queue: seq<Entry>, visited: set<string>): Option<seq<string>>
    requires EdgesWithin(es, ids) && Within(queue, ids)
    decreases |ids - visited|, |queue|
  {
    if queue == [] then None
    else
      var u, p := queue[0].node, queue[0].path;
      assert queue[0] in queue;
      if u == t then Some(p)
      else if u in visited then Search(es, ids, t, queue[1..], visited)
      else
        FrontierWithin(es, ids, Incident(es, u), u, p, visited + {u});
        assert ids - visited == (ids - (visited + {u})) + {u};
        Search(es, ids, t, queue[1..] + Frontier(es, Incident(es, u), u, p, visited + {u}), visited + {u})
  }

  /**
   * The shortest-path query over the nodes `ids` and the edges `es`: `None`
   * when either endpoint is unknown, otherwise the search seeded with the
   * one-node path of `s` and nothing visited.
   */
  function ShortestPath(es: seq<EdgeRec>, ids: set<string>, s: string, t: string): Option<seq<string>>
    requires EdgesWithin(es, ids)
  {
    if s !in ids || t !in ids then None
    else Search(es, ids, t, [Entry(s, [s])], {})
  }

  /** Taking off an entry whose node is visited leaves the outcome of the search unchanged. */
  lemma SearchSkip(es: seq<EdgeRec>, ids: set<string>, t: string, queue: seq<Entry>, visited: set<string>)
    requires EdgesWithin(es, ids) && Within(queue, ids)
    requires queue != [] && queue[0].node != t && queue[0].node in visited
    ensures Within(queue[1..], ids)
    ensures Search(es, ids, t, queue[1..], visited) == Search(es, ids, t, queue, visited)
  {
    assert queue[0] in queue;
  }

  /**
   * Expanding the front entry, whose node `u` is not visited, leaves the
   * outcome of the search unchanged and shrinks the set of unvisited nodes.
   */
  lemma SearchExpand(es: seq<EdgeRec>, ids: set<string>, t: string, queue: seq<Entry>, visited: set<string>)
    requires EdgesWithin(es, ids) && Within(queue, ids)
    requires queue != [] && queue[0].node != t && queue[0].node !in visited
    ensures var u := queue[0].node;
            var next := queue[1..] + Frontier(es, Incident(es, u), u, queue[0].path, visited + {u});
            && |ids - (visited + {u})| < |ids - visited|
            && Within(next, ids)
            && Search(es, ids, t, next, visited + {u}) == Search(es, ids, t, queue, visited)
  {
    var u := queue[0].node;
    assert queue[0] in queue;
    assert ids - visited == (ids - (visited + {u})) + {u};
    FrontierWithin(es, ids, Incident(es, u), u, queue[0].path, visited + {u});
  }

  // ---------------------------------------------------------------------
  // The search invariant

  /**
   * A queue entry is a walk from `s` to its node without repeated nodes,
   * whose nodes other than the last have all been visited.
   */
  ghost predicate EntryOk(es: seq<EdgeRec>, ids: set<string>, s: string, visited: set<string>, e: Entry)
  {
    && WalkFrom(es, e.path, s)
    && Last(e.path) == e.node
    && Distinct(e.path)
    && e.node in ids
    && forall j :: 0 <= j < |e.path| - 1 ==> e.path[j] in visited
  }

  /** Every queue entry satisfies `EntryOk`. */
  ghost predicate QueueOk(es: seq<EdgeRec>, ids: set<string>, s: string, queue: seq<Entry>, visited: set<string>)
  {
    forall e :: e in queue ==> EntryOk(es, ids, s, visited, e)
  }

  /** Path lengths along the queue never decrease and differ by at most one. */
  ghost predicate LevelOrder(queue: seq<Entry>)
  {
    forall i, j :: 0 <= i < j < |queue| ==> |queue[i].path| <= |queue[j].path| <= |queue[i].path| + 1
  }

  /** The queue holds an entry for `w` whose path has at most `bound` nodes. */
  ghost predicate Enqueued(queue: seq<Entry>, w: string, bound: int)
  {
    exists i :: 0 <= i < |queue| && queue[i].node == w && |queue[i].path| <= bound
  }

  /** Every walk from `s` with fewer than `bound` nodes ends at a visited node. */
  ghost predicate SettledBelow(es: seq<EdgeRec>, s: string, visited: set<string>, bound: int)
  {
    forall w :: WalkFrom(es, w, s) && |w| < bound ==> Last(w) in visited
  }

  /** Everything reachable by a walk shorter than the front entry's path is visited. */
  ghost predicate Settled(es: seq<EdgeRec>, s: string, queue: seq<Entry>, visited: set<string>)
  {
    queue != [] ==> SettledBelow(es, s, visited, |queue[0].path|)
  }

  /**
   * A neighbour `w` of a visited node reached from `s` by the walk `q` is
   * visited, or queued with a path no longer than `q` extended by `w`.
   */
  ghost predicate Covered(es: seq<EdgeRec>, s: string, queue: seq<Entry>, visited: set<string>)
  {
    forall q, w :: WalkFrom(es, q, s) && Last(q) in visited && Adjacent(es, Last(q), w) ==>
      w in visited || Enqueued(queue, w, |q| + 1)
  }

  /** The start node is visited, or still queued with the one-node path. */
  ghost predicate StartSeen(s: string, queue: seq<Entry>, visited: set<string>)
  {
    s in visited || Enqueued(queue, s, 1)
  }

  /** The invariant of the search from `s` for `t` over the nodes `ids`. */
  ghost predicate SearchInv(es: seq<EdgeRec>, ids: set<string>, s: string, t: string, queue: seq<Entry>, visited: set<string>)
  {
    && visited <= ids
    && t !in visited
    && QueueOk(es, ids, s, queue, visited)
    && LevelOrder(queue)
    && Settled(es, s, queue, visited)
    && Covered(es, s, queue, visited)
    && StartSeen(s, queue, visited)
  }

  // ---------------------------------------------------------------------
  // Lemmas about walks

  /** Dropping the last node of a walk leaves a walk ending next to it. */
  lemma WalkPrefix(es: seq<EdgeRec>, w: seq<string>, s: string)
    requires WalkFrom(es, w, s) && |w| >= 2
    ensures WalkFrom(es, w[..|w| - 1], s)
    ensures Adjacent(es, Last(w[..|w| - 1]), Last(w))
  {
    var n := |w| - 1;
    assert Adjacent(es, w[n - 1], w[n]);
  }

  /** A walk ending at `u` extended by a neighbour of `u` is a walk. */
  lemma WalkExtend(es: seq<EdgeRec>, p: seq<string>, s: string, w: string)
    requires WalkFrom(es, p, s) && Adjacent(es, Last(p), w)
    ensures WalkFrom(es, p + [w], s) && Last(p + [w]) == w
  {
    var p' := p + [w];
    forall j | 0 <= j < |p'| - 1
      ensures Adjacent(es, p'[j], p'[j + 1])
    {
      if j < |p| - 1 {
        assert p'[j] == p[j] && p'[j + 1] == p[j + 1];
      }
    }
  }

  /** A visited set that holds `s` and is closed under `Covered` with an empty queue holds every node reachable from `s`. */
  lemma {:induction false} ReachClosed(es: seq<EdgeRec>, s: string, visited: set<string>, q: seq<string>)
    requires s in visited && Covered(es, s, [], visited)
    requires WalkFrom(es, q, s)
    ensures Last(q) in visited
    decreases |q|
  {
    if |q| >= 2 {
      var q' := q[..|q| - 1];
      WalkPrefix(es, q, s);
      ReachClosed(es, s, visited, q');
      assert !Enqueued([], Last(q), |q'| + 1);
    }
  }

  // ---------------------------------------------------------------------
  // The invariant holds initially and is kept by each step

  lemma InitInv(es: seq<EdgeRec>, ids: set<string>, s: string, t: string)
    requires s in ids
    ensures SearchInv(es, ids, s, t, [Entry(s, [s])], {})
  {
    var queue := [Entry(s, [s])];
    assert WalkFrom(es, [s], s);
    assert queue[0].node == s && |queue[0].path| == 1;
  }

  /** No entry of a level-ordered queue is shorter than its front entry. */
  lemma NotEnqueuedBelowFront(queue: seq<Entry>, w: string, bound: int)
    requires LevelOrder(queue) && queue != [] && bound < |queue[0].path|
    ensures !Enqueued(queue, w, bound)
  {
    forall i | 0 < i < |queue|
      ensures |queue[0].path| <= |queue[i].path|
    {
    }
  }

  /**
   * After the front entry is taken off, with `bound` nodes in its path:
   * walks shorter than the new front's path end at visited nodes.
   */
  lemma SettledAfterPop(es: seq<EdgeRec>, s: string, visited: set<string>, bound: int,
                        queue': seq<Entry>, visited': set<string>)
    requires SettledBelow(es, s, visited, bound) && visited <= visited'
    requires Covered(es, s, queue', visited') && StartSeen(s, queue', visited') && LevelOrder(queue')
    requires queue' != [] ==> |queue'[0].path| <= bound + 1
    ensures Settled(es, s, queue', visited')
  {
    if queue' != [] {
      var front := |queue'[0].path|;
      forall w | WalkFrom(es, w, s) && |w| < front
        ensures Last(w) in visited'
      {
        if |w| >= bound {
          // then |w| == bound, and no entry of `queue'` is as short as `w`
          if |w| == 1 {
            NotEnqueuedBelowFront(queue', s, 1);
          } else {
            var w' := w[..|w| - 1];
            WalkPrefix(es, w, s);
            assert Last(w') in visited;
            NotEnqueuedBelowFront(queue', Last(w), |w'| + 1);
          }
        }
      }
    }
  }

  /** Taking off an entry whose node is already visited keeps the invariant. */
  lemma StepVisited(es: seq<EdgeRec>, ids: set<string>, s: string, t: string, queue: seq<Entry>, visited: set<string>)
    requires SearchInv(es, ids, s, t, queue, visited)
    requires queue != [] && queue[0].node in visited
    ensures SearchInv(es, ids, s, t, queue[1..], visited)
  {
    var rest := queue[1..];
    forall i, j | 0 <= i < j < |rest|
      ensures |rest[i].path| <= |rest[j].path| <= |rest[i].path| + 1
    {
      assert rest[i] == queue[i + 1] && rest[j] == queue[j + 1];
    }
    forall q, w | WalkFrom(es, q, s) && Last(q) in visited && Adjacent(es, Last(q), w)
      ensures w in visited || Enqueued(rest, w, |q| + 1)
    {
      if w !in visited {
        var i :| 0 <= i < |queue| && queue[i].node == w && |queue[i].path| <= |q| + 1;
        assert rest[i - 1] == queue[i];
      }
    }
    if s !in visited {
      var i :| 0 <= i < |queue| && queue[i].node == s && |queue[i].path| <= 1;
      assert rest[i - 1] == queue[i];
    }
    if rest != [] {
      assert rest[0] == queue[1];
    }
    SettledAfterPop(es, s, visited, |queue[0].path|, rest, visited);
  }

  /** The entry for an unseen neighbour `w` of the expanded node satisfies `EntryOk`. */
  lemma ExtendEntry(es: seq<EdgeRec>, ids: set<string>, s: string, visited: set<string>, e: Entry, w: string)
    requires EntryOk(es, ids, s, visited, e) && e.node in visited
    requires Adjacent(es, e.node, w) && w !in visited && w in ids
    ensures EntryOk(es, ids, s, visited, Entry(w, e.path + [w]))
  {
    var p := e.path;
    WalkExtend(es, p, s, w);
    var p' := p + [w];
    forall j, k | 0 <= j < k < |p'|
      ensures p'[j] != p'[k]
    {
      if k < |p| {
        assert p'[j] == p[j] && p'[k] == p[k];
      } else {
        assert p'[j] == p[j] && p[j] in visited;
      }
    }
  }

  /** The entries left after the pop, and the new ones, satisfy `EntryOk` once `u` is visited. */
  lemma ExpandEntries(es: seq<EdgeRec>, ids: set<string>, s: string, t: string, queue: seq<Entry>,
                      visited: set<string>, added: seq<Entry>)
    requires SearchInv(es, ids, s, t, queue, visited) && EdgesWithin(es, ids) && queue != []
    requires Expansion(es, queue[0].node, queue[0].path, visited + {queue[0].node}, added)
    ensures QueueOk(es, ids, s, queue[1..] + added, visited + {queue[0].node})
    ensures visited + {queue[0].node} <= ids
  {
    var u, p := queue[0].node, queue[0].path;
    var rest := queue[1..];
    var visited' := visited + {u};
    assert EntryOk(es, ids, s, visited, queue[0]);
    forall e | e in rest + added
      ensures EntryOk(es, ids, s, visited', e)
    {
      if e in rest {
        assert EntryOk(es, ids, s, visited, e);
      } else {
        assert e.path == p + [e.node] && e.node !in visited' && Adjacent(es, u, e.node);
        var i :| 0 <= i < |es| && Joins(es[i], u, e.node);
        ExtendEntry(es, ids, s, visited', queue[0], e.node);
      }
    }
  }

  /**
   * Appending entries one node longer than the popped front keeps the
   * level order, and the new front is at most one node longer than the old.
   */
  lemma ExpandLevels(queue: seq<Entry>, added: seq<Entry>)
    requires LevelOrder(queue) && queue != []
    requires forall e :: e in added ==> |e.path| == |queue[0].path| + 1
    ensures LevelOrder(queue[1..] + added)
    ensures queue[1..] + added != [] ==> |(queue[1..] + added)[0].path| <= |queue[0].path| + 1
  {
    var F := |queue[0].path|;
    var rest := queue[1..];
    var queue' := rest + added;
    forall i | 0 <= i < |rest|
      ensures F <= |rest[i].path| <= F + 1
    {
      assert rest[i] == queue[i + 1];
    }
    forall i, j | 0 <= i < j < |queue'|
      ensures |queue'[i].path| <= |queue'[j].path| <= |queue'[i].path| + 1
    {
      if j < |rest| {
        assert queue'[i] == queue[i + 1] && queue'[j] == queue[j + 1];
      } else {
        assert queue'[j] in added;
        if i >= |rest| {
          assert queue'[i] in added;
        }
      }
    }
    if queue' != [] {
      if rest != [] {
        assert queue'[0] == queue[1];
      } else {
        assert queue'[0] in added;
      }
    }
  }

  /** Expanding `u` keeps `Covered`: its unvisited neighbours are now queued. */
  lemma ExpandCovered(es: seq<EdgeRec>, ids: set<string>, s: string, t: string, queue: seq<Entry>,
                      visited: set<string>, added: seq<Entry>)
    requires SearchInv(es, ids, s, t, queue, visited)
    requires queue != [] && queue[0].node !in visited
    requires Expansion(es, queue[0].node, queue[0].path, visited + {queue[0].node}, added)
    ensures Covered(es, s, queue[1..] + added, visited + {queue[0].node})
    ensures StartSeen(s, queue[1..] + added, visited + {queue[0].node})
  {
    var u := queue[0].node;
    var visited' := visited + {u};
    var queue' := queue[1..] + added;
    assert SettledBelow(es, s, visited, |queue[0].path|);
    forall q, w | WalkFrom(es, q, s) && Last(q) in visited' && Adjacent(es, Last(q), w)
      ensures w in visited' || Enqueued(queue', w, |q| + 1)
    {
      if w !in visited' {
        if Last(q) in visited {
          CoveredFromVisited(es, s, queue, visited, added, q, w);
        } else {
          CoveredFromFront(es, s, queue, visited, added, q, w);
        }
      }
    }
    if s !in visited' {
      var i :| 0 <= i < |queue| && queue[i].node == s && |queue[i].path| <= 1;
      assert queue'[i - 1] == queue[i];
    }
  }

  /** A new neighbour of an already visited node was queued before the step and still is. */
  lemma CoveredFromVisited(es: seq<EdgeRec>, s: string, queue: seq<Entry>, visited: set<string>,
                           added: seq<Entry>, q: seq<string>, w: string)
    requires queue != [] && Covered(es, s, queue, visited)
    requires WalkFrom(es, q, s) && Last(q) in visited && Adjacent(es, Last(q), w)
    requires w !in visited && w != queue[0].node
    ensures Enqueued(queue[1..] + added, w, |q| + 1)
  {
    var i :| 0 <= i < |queue| && queue[i].node == w && |queue[i].path| <= |q| + 1;
    assert (queue[1..] + added)[i - 1] == queue[i];
  }

  /**
   * A new neighbour of the node just visited is among the added entries,
   * with a path no longer than any walk to that node extended by it.
   */
  lemma CoveredFromFront(es: seq<EdgeRec>, s: string, queue: seq<Entry>, visited: set<string>,
                         added: seq<Entry>, q: seq<string>, w: string)
    requires queue != [] && queue[0].node !in visited
    requires SettledBelow(es, s, visited, |queue[0].path|)
    requires Expansion(es, queue[0].node, queue[0].path, visited + {queue[0].node}, added)
    requires WalkFrom(es, q, s) && Last(q) == queue[0].node && Adjacent(es, Last(q), w)
    requires w !in visited && w != queue[0].node
    ensures Enqueued(queue[1..] + added, w, |q| + 1)
  {
    var p := queue[0].path;
    // the front node is not visited, so no walk to it is shorter than `p`
    assert |p| <= |q|;
    var k :| 0 <= k < |added| && added[k] == Entry(w, p + [w]);
    assert (queue[1..] + added)[|queue| - 1 + k] == added[k];
  }

  /**
   * Taking off an entry whose node `u` is not yet visited, marking `u`
   * visited and appending the entries for its unvisited neighbours keeps
   * the invariant.
   */
  lemma StepExpand(es: seq<EdgeRec>, ids: set<string>, s: string, t: string, queue: seq<Entry>,
                   visited: set<string>, added: seq<Entry>)
    requires SearchInv(es, ids, s, t, queue, visited) && EdgesWithin(es, ids)
    requires queue != [] && queue[0].node !in visited && queue[0].node != t
    requires Expansion(es, queue[0].node, queue[0].path, visited + {queue[0].node}, added)
    ensures SearchInv(es, ids, s, t, queue[1..] + added, visited + {queue[0].node})
  {
    var visited' := visited + {queue[0].node};
    var queue' := queue[1..] + added;
    ExpandEntries(es, ids, s, t, queue, visited, added);
    ExpandLevels(queue, added);
    ExpandCovered(es, ids, s, t, queue, visited, added);
    SettledAfterPop(es, s, visited, |queue[0].path|, queue', visited');
  }

  /**
   * One expansion step of the search, as the loop performs it: the node of
   * the front entry is known, marking it visited shrinks the set of
   * unvisited nodes, and the queue with the front removed and the frontier
   * of that node appended keeps the invariant.
   */
  lemma ExpandStep(es: seq<EdgeRec>, ids: set<string>, s: string, t: string, queue: seq<Entry>, visited: set<string>)
    requires SearchInv(es, ids, s, t, queue, visited) && EdgesWithin(es, ids)
    requires queue != [] && queue[0].node !in visited && queue[0].node != t
    ensures queue[0].node in ids
    ensures |ids - (visited + {queue[0].node})| < |ids - visited|
    ensures var u := queue[0].node;
            SearchInv(es, ids, s, t,
                      queue[1..] + Frontier(es, Incident(es, u), u, queue[0].path, visited + {u}),
                      visited + {u})
  {
    var u := queue[0].node;
    assert EntryOk(es, ids, s, visited, queue[0]);
    assert ids - visited == (ids - (visited + {u})) + {u};
    FrontierExpansion(es, u, queue[0].path, visited + {u});
    StepExpand(es, ids, s, t, queue, visited, Frontier(es, Incident(es, u), u, queue[0].path, visited + {u}));
  }

  // ---------------------------------------------------------------------
  // What the invariant gives when the search stops

  /** The first entry taken off for the target is a shortest walk to it without repeated nodes. */
  lemma FoundShortest(es: seq<EdgeRec>, ids: set<string>, s: string, t: string, queue: seq<Entry>, visited: set<string>)
    requires SearchInv(es, ids, s, t, queue, visited)
    requires queue != [] && queue[0].node == t
    ensures WalkFrom(es, queue[0].path, s) && Last(queue[0].path) == t && Distinct(queue[0].path)
    ensures forall q :: WalkFrom(es, q, s) && Last(q) == t ==> |queue[0].path| <= |q|
  {
    assert EntryOk(es, ids, s, visited, queue[0]);
  }

  /** When the queue runs empty, no walk from `s` reaches `t`. */
  lemma ExhaustedUnreachable(es: seq<EdgeRec>, ids: set<string>, s: string, t: string, visited: set<string>)
    requires SearchInv(es, ids, s, t, [], visited)
    ensures forall q :: WalkFrom(es, q, s) ==> Last(q) != t
  {
    assert s in visited;
    forall q | WalkFrom(es, q, s)
      ensures Last(q) != t
    {
      ReachClosed(es, s, visited, q);
    }
  }

  /**
   * From any state that satisfies the search invariant, a path the search
   * returns is a shortest walk from `s` to `t` without repeated nodes, and
   * `None` means that no walk from `s` reaches `t`.
   */
  lemma {:induction false} SearchSound(es: seq<EdgeRec>, ids: set<string>, s: string, t: string,
                                       queue: seq<Entry>, visited: set<string>)
    requires SearchInv(es, ids, s, t, queue, visited) && EdgesWithin(es, ids) && Within(queue, ids)
    ensures var r := Search(es, ids, t, queue, visited);
            && (r.Some? ==> WalkFrom(es, r.value, s) && Last(r.value) == t && Distinct(r.value))
            && (r.Some? ==> forall q :: WalkFrom(es, q, s) && Last(q) == t ==> |r.value| <= |q|)
            && (r.None? ==> forall q :: WalkFrom(es, q, s) ==> Last(q) != t)
    decreases |ids - visited|, |queue|
  {
    if queue == [] {
      ExhaustedUnreachable(es, ids, s, t, visited);
    } else if queue[0].node == t {
      FoundShortest(es, ids, s, t, queue, visited);
    } else if queue[0].node in visited {
      StepVisited(es, ids, s, t, queue, visited);
      SearchSound(es, ids, s, t, queue[1..], visited);
    } else {
      var u := queue[0].node;
      ExpandStep(es, ids, s, t, queue, visited);
      FrontierWithin(es, ids, Incident(es, u), u, queue[0].path, visited + {u});
      SearchSound(es, ids, s, t, queue[1..] + Frontier(es, Incident(es, u), u, queue[0].path, visited + {u}), visited + {u});
    }
  }

  /**
   * What the shortest-path query promises: `None` for an unknown endpoint;
   * `[s]` when the endpoints are equal; otherwise a shortest walk from `s`
   * to `t` without repeated nodes, or `None` exactly when no walk joins them.
   */
  lemma ShortestPathCorrect(es: seq<EdgeRec>, ids: set<string>, s: string, t: string)
    requires EdgesWithin(es, ids)
    ensures var r := ShortestPath(es, ids, s, t);
            && ((s !in ids || t !in ids) ==> r == None)
            && (s in ids && s == t ==> r == Some([s]))
            && (r.Some? ==> WalkFrom(es, r.value, s) && Last(r.value) == t && Distinct(r.value))
            && (r.Some? ==> forall q :: WalkFrom(es, q, s) && Last(q) == t ==> |r.value| <= |q|)
            && (r.None? && s in ids && t in ids ==> forall q :: WalkFrom(es, q, s) ==> Last(q) != t)
  {
    if s in ids && t in ids {
      InitInv(es, ids, s, t);
      SearchSound(es, ids, s, t, [Entry(s, [s])], {});
    }
  }
}
