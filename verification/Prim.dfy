/** Prim's algorithm of MP2/PrimMSP.java over the ternary-heap queue. The
    priority, predecessor and colour fields of the graph's nodes are the
    maps `priority`, `previous` and `color`, keyed by node. */
module Prim {
  import opened Common
  import opened Graphs
  import opened PriorityQueue

  /** Infinity: Double.MAX_VALUE, the largest finite double (1.7976931348623157e308). */
  const INF: real := 179769313486231570000000000000000000000000000000000000000000000000000000000000000000000000000000000000000000000000000000000000000000000000000000000000000000000000000000000000000000000000000000000000000000000000000000000000000000000000000000000000000000000000000000000000000000000000000000000000000000000000000.0

  /** `e` has `u` and `v` as its two endpoints, in either order. */
  predicate Joining<L(==)>(e: Edge<L>, u: L, v: L)
  {
    (e.node1 == u && e.node2 == v) || (e.node1 == v && e.node2 == u)
  }

  /** Every edge carries a non-negative weight. */
  predicate NonNegative<L(==)>(edges: set<Edge<L>>)
  {
    forall e :: e in edges ==> e.weight.Some? && e.weight.value >= 0.0
  }

  /** The input check as the code makes it: a directed graph must carry
      non-negative weights on all its edges, an undirected one is not
      checked. */
  predicate WeightsChecked<L(==)>(g: Graph<L>)
  {
    g.directed ==> NonNegative(g.edges)
  }

  /** The input the documentation admits: an undirected graph whose edges
      all carry non-negative weights. */
  predicate DocumentedInput<L(==)>(g: Graph<L>)
  {
    !g.directed && NonNegative(g.edges)
  }

  /** No edge joins a node to itself. */
  ghost predicate Loopless<L>(g: Graph<L>)
  {
    forall e :: e in g.edges ==> e.node1 != e.node2
  }

  /** The weight check run on directed graphs: every edge must have a weight
      and no weight may be negative. */
  method CheckWeights<L(==)>(edges: set<Edge<L>>) returns (ok: bool)
    ensures ok <==> NonNegative(edges)
  {
    var todo := edges;
    while todo != {}
      invariant todo <= edges
      invariant NonNegative(edges - todo)
      decreases |todo|
    {
      var e :| e in todo;
      if e.weight.None? || e.weight.value < 0.0 {
        return false;
      }
      todo := todo - {e};
    }
    assert edges - todo == edges;
    ok := true;
  }

  /** The node fields exist for every node, the queued nodes (`qp`, with
      their keys) are nodes whose key is their own priority, and black nodes
      have left the queue. */
  ghost predicate Fields<L>(g: Graph<L>, qp: map<L, real>, prio: map<L, real>,
                            prev: map<L, Option<L>>, col: map<L, Color>)
  {
    && qp.Keys <= g.nodes
    && g.nodes <= prio.Keys && g.nodes <= prev.Keys && g.nodes <= col.Keys
    && (forall x :: x in qp ==> qp[x] == prio[x])
    && (forall x :: x in g.nodes && col[x] == Black ==> x !in qp)
  }

  /** The nodes out of the queue `q` are ranked 0, 1, ... in extraction order. */
  ghost predicate RankedBy<L>(g: Graph<L>, q: set<L>, rank: map<L, nat>)
  {
    && rank.Keys == g.nodes - q
    && (forall x :: x in rank ==> rank[x] < |rank|)
    && (forall x, y :: x in rank && y in rank && rank[x] == rank[y] ==> x == y)
  }

  /** Every predecessor was extracted before its node and is joined to it by
      an edge whose weight is the node's priority; a node without a
      predecessor is the source or still has an infinite priority. */
  ghost predicate LinkedBy<L>(g: Graph<L>, s: L, prio: map<L, real>, prev: map<L, Option<L>>,
                              rank: map<L, nat>)
    requires g.nodes <= prio.Keys && g.nodes <= prev.Keys
  {
    forall v :: v in g.nodes ==>
      if prev[v].Some? then
        && prev[v].value in rank
        && (v in rank ==> rank[prev[v].value] < rank[v])
        && exists e :: e in g.edges && Joining(e, prev[v].value, v) && e.weight == Some(prio[v])
      else
        v == s || prio[v] == INF
  }

  /** The source has priority 0 and no predecessor; while it is queued
      nothing has been extracted and every other queued node has an infinite
      priority. */
  ghost predicate RootedAt<L>(g: Graph<L>, s: L, q: set<L>, prio: map<L, real>,
                              prev: map<L, Option<L>>, rank: map<L, nat>)
    requires g.nodes <= prio.Keys && g.nodes <= prev.Keys
  {
    && s in g.nodes && prev[s] == None && prio[s] == 0.0
    && (s in q ==> rank == map[] && forall x :: x in q && x != s ==> x in prio && prio[x] == INF)
  }

  /** `e` is an edge of `x`: leaving it, or touching it in an undirected graph. */
  predicate Touches<L(==)>(g: Graph<L>, e: Edge<L>, x: L)
  {
    e.node1 == x || (!g.directed && e.node2 == x)
  }

  /** An extracted node left non-black has no neighbour in the queue `q`. */
  ghost predicate SettledBy<L>(g: Graph<L>, q: set<L>, col: map<L, Color>)
    requires g.nodes <= col.Keys
  {
    forall x, e :: x in g.nodes && x !in q && col[x] != Black && e in g.edges && Touches(g, e, x) ==>
      Opposite(e, x) !in q
  }

  /** The invariant of the main loop. */
  ghost predicate Running<L>(g: Graph<L>, s: L, qp: map<L, real>, prio: map<L, real>,
                             prev: map<L, Option<L>>, col: map<L, Color>, rank: map<L, nat>)
  {
    && Fields(g, qp, prio, prev, col) && RankedBy(g, qp.Keys, rank)
    && LinkedBy(g, s, prio, prev, rank) && RootedAt(g, s, qp.Keys, prio, prev, rank)
    && SettledBy(g, qp.Keys, col)
  }

  /** The invariant while the neighbours of the extracted node `u` are
      visited: `q0` is the queue `u` was extracted from and `done` the
      neighbours visited so far, all black unless `u` already is. */
  ghost predicate Visiting<L>(g: Graph<L>, s: L, u: L, q0: set<L>, done: set<L>, qp: map<L, real>,
                              prio: map<L, real>, prev: map<L, Option<L>>, col: map<L, Color>,
                              rank: map<L, nat>)
  {
    && Fields(g, qp, prio, prev, col) && RankedBy(g, qp.Keys, rank)
    && LinkedBy(g, s, prio, prev, rank) && RootedAt(g, s, qp.Keys, prio, prev, rank)
    && u in rank && u !in qp && q0 == qp.Keys + {u}
    && SettledBy(g, q0, col)
    && (col[u] != Black ==> forall y :: y in done ==> y in col && col[y] == Black)
  }

  /** Loading every node, the source with priority 0 and the others with
      infinity, none of them with a predecessor or black, starts the loop. */
  lemma Start<L>(g: Graph<L>, s: L, qp: map<L, real>, prio: map<L, real>,
                 prev: map<L, Option<L>>, col: map<L, Color>)
    requires s in g.nodes && qp.Keys == g.nodes
    requires g.nodes <= prio.Keys && g.nodes <= prev.Keys && g.nodes <= col.Keys
    requires forall x :: x in g.nodes ==>
      && qp[x] == prio[x] && prio[x] == (if x == s then 0.0 else INF)
      && prev[x] == None && col[x] == White
    ensures Running(g, s, qp, prio, prev, col, map[])
  {
  }

  /** Ranking a further node `u` taken out of the queue keeps the ranking. */
  lemma RankExtend<L>(g: Graph<L>, q: set<L>, rank: map<L, nat>, u: L)
    requires RankedBy(g, q, rank) && u in q && u in g.nodes
    ensures RankedBy(g, q - {u}, rank[u := |rank|])
  {
    var rank' := rank[u := |rank|];
    assert u !in rank;
    assert rank'.Keys == rank.Keys + {u};
    assert |rank'| == |rank| + 1;
  }

  /** Ranking a node not yet ranked keeps the predecessor links. */
  lemma LinkExtend<L>(g: Graph<L>, s: L, prio: map<L, real>, prev: map<L, Option<L>>,
                      rank: map<L, nat>, u: L)
    requires g.nodes <= prio.Keys && g.nodes <= prev.Keys
    requires LinkedBy(g, s, prio, prev, rank)
    requires u !in rank && forall x :: x in rank ==> rank[x] < |rank|
    ensures LinkedBy(g, s, prio, prev, rank[u := |rank|])
  {
    var rank' := rank[u := |rank|];
    forall v | v in g.nodes && prev[v].Some?
      ensures prev[v].value in rank' && (v in rank' ==> rank'[prev[v].value] < rank'[v])
    {
      if v == u {
        assert rank'[prev[v].value] == rank[prev[v].value];
      }
    }
  }

  /** Extracting a node of least priority keeps the fields; the source is
      the first node extracted, so afterwards it is out of the queue. */
  lemma ExtractKeep<L>(g: Graph<L>, s: L, qp: map<L, real>, prio: map<L, real>,
                       prev: map<L, Option<L>>, col: map<L, Color>, rank: map<L, nat>, u: L)
    requires Running(g, s, qp, prio, prev, col, rank)
    requires u in qp && forall x :: x in qp ==> qp[u] <= qp[x]
    ensures Fields(g, qp - {u}, prio, prev, col)
    ensures RootedAt(g, s, (qp - {u}).Keys, prio, prev, rank[u := |rank|])
  {
    assert s in qp ==> qp[u] <= qp[s];
  }

  /** The node extracted from the queue takes the next rank. */
  lemma ExtractRank<L>(g: Graph<L>, qp: map<L, real>, rank: map<L, nat>, u: L)
    requires RankedBy(g, qp.Keys, rank) && u in qp && u in g.nodes
    ensures RankedBy(g, (qp - {u}).Keys, rank[u := |rank|])
    ensures u in rank[u := |rank|] && u !in qp - {u} && qp.Keys == (qp - {u}).Keys + {u}
  {
    assert (qp - {u}).Keys == qp.Keys - {u};
    RankExtend(g, qp.Keys, rank, u);
  }

  /** Extracting a node of least priority starts the visit of its
      neighbours, the node taking the next rank. */
  lemma ExtractStep<L>(g: Graph<L>, s: L, qp: map<L, real>, prio: map<L, real>,
                       prev: map<L, Option<L>>, col: map<L, Color>, rank: map<L, nat>, u: L)
    requires Running(g, s, qp, prio, prev, col, rank)
    requires u in qp && forall x :: x in qp ==> qp[u] <= qp[x]
    ensures Visiting(g, s, u, qp.Keys, {}, qp - {u}, prio, prev, col, rank[u := |rank|])
  {
    ExtractKeep(g, s, qp, prio, prev, col, rank, u);
    ExtractRank(g, qp, rank, u);
    LinkExtend(g, s, prio, prev, rank, u);
  }

  /** Once all its neighbours are visited, `u` is black or all of them are,
      and the main invariant holds again. */
  lemma VisitDone<L>(g: Graph<L>, s: L, u: L, q0: set<L>, done: set<L>, qp: map<L, real>,
                     prio: map<L, real>, prev: map<L, Option<L>>, col: map<L, Color>,
                     rank: map<L, nat>)
    requires WellFormed(g) && Adjacent(g, u) <= done
    requires Visiting(g, s, u, q0, done, qp, prio, prev, col, rank)
    ensures Running(g, s, qp, prio, prev, col, rank)
  {
  }

  /** In an undirected graph without self-loops, a neighbour of the
      extracted node that is not black is still queued. */
  lemma NeighbourQueued<L>(g: Graph<L>, s: L, u: L, q0: set<L>, done: set<L>, qp: map<L, real>,
                           prio: map<L, real>, prev: map<L, Option<L>>, col: map<L, Color>,
                           rank: map<L, nat>, v: L)
    requires WellFormed(g) && !g.directed && Loopless(g)
    requires Visiting(g, s, u, q0, done, qp, prio, prev, col, rank)
    requires v in Adjacent(g, u) && v in col && col[v] != Black
    ensures v in qp && v != u
  {
    var e :| e in Incident(g, u) && Opposite(e, u) == v;
    assert v != u && v in g.nodes;
    UndirectedSymmetric(g, u, v);
  }

  /** The queue and the fields after the neighbours `done` of `u` were
      visited, starting from the queue `qp0` and the fields `prio0`, `prev0`
      and `col0`: every queued visited neighbour was relaxed along the edges
      of `u`, the queue follows the priorities, nothing else changed, and `u`
      is black once a visited neighbour was not. */
  ghost predicate Touched<L>(g: Graph<L>, u: L, done: set<L>, qp0: map<L, real>,
                             prio0: map<L, real>, prev0: map<L, Option<L>>, col0: map<L, Color>,
                             qp: map<L, real>, prio: map<L, real>, prev: map<L, Option<L>>,
                             col: map<L, Color>)
  {
    && prio.Keys == prio0.Keys && prev.Keys == prev0.Keys
    && qp.Keys == qp0.Keys && (forall x :: x in qp ==> x in prio && qp[x] == prio[x])
    && col == (if exists v :: v in done && v in col0 && col0[v] != Black then col0[u := Black] else col0)
    && (forall x :: x in done && x in qp0 && x in prio0 && x in prev0 ==>
          LoweredBy(Incident(g, u), u, x, prio0[x], prev0[x], prio[x], prev[x]))
    && (forall x :: x in prio0 && x in prev0 && !(x in done && x in qp0) ==>
          prio[x] == prio0[x] && prev[x] == prev0[x])
  }

  /** Visiting one more neighbour `v` keeps `Touched`. */
  lemma TouchStep<L>(g: Graph<L>, u: L, done: set<L>, qp0: map<L, real>,
                     prio0: map<L, real>, prev0: map<L, Option<L>>, col0: map<L, Color>,
                     qp1: map<L, real>, prio1: map<L, real>, prev1: map<L, Option<L>>, col1: map<L, Color>,
                     v: L, qp: map<L, real>, prio: map<L, real>, prev: map<L, Option<L>>, col: map<L, Color>)
    requires Touched(g, u, done, qp0, prio0, prev0, col0, qp1, prio1, prev1, col1)
    requires v !in done && v in col0 && v in prio0 && v in prev0
    requires v in qp0 ==> col1[v] != Black
    requires col == if col1[v] != Black then col1[u := Black] else col1
    requires col1[v] != Black ==> RelaxingAt(u, v, Incident(g, u), qp1, prio1, prev1, qp, prio, prev)
    requires col1[v] == Black ==> qp == qp1 && prio == prio1 && prev == prev1
    ensures Touched(g, u, done + {v}, qp0, prio0, prev0, col0, qp, prio, prev, col)
  {
    var before := exists x :: x in done && x in col0 && col0[x] != Black;
    var after := exists x :: x in done + {v} && x in col0 && col0[x] != Black;
    if before {
      var x :| x in done && x in col0 && col0[x] != Black;
      assert x in done + {v};
    }
    if col0[v] != Black {
      assert after;
    }
  }

  /** After the visit the fields other than the predecessors keep the
      invariant of the visit, with every neighbour visited. */
  lemma TouchedFields<L>(g: Graph<L>, s: L, u: L, q0: set<L>, qp0: map<L, real>,
                         prio0: map<L, real>, prev0: map<L, Option<L>>, col0: map<L, Color>,
                         rank: map<L, nat>, qp: map<L, real>, prio: map<L, real>,
                         prev: map<L, Option<L>>, col: map<L, Color>)
    requires WellFormed(g) && Visiting(g, s, u, q0, {}, qp0, prio0, prev0, col0, rank)
    requires Touched(g, u, Adjacent(g, u), qp0, prio0, prev0, col0, qp, prio, prev, col)
    ensures Fields(g, qp, prio, prev, col) && RankedBy(g, qp.Keys, rank)
    ensures RootedAt(g, s, qp.Keys, prio, prev, rank)
    ensures u in rank && u !in qp && q0 == qp.Keys + {u} && SettledBy(g, q0, col)
    ensures col[u] != Black ==> forall y :: y in Adjacent(g, u) ==> y in col && col[y] == Black
  {
    AdjacentWithin(g, u);
    assert s !in qp0;
  }

  /** After the visit the predecessor links still hold: a lowered
      neighbour has `u` as predecessor along an edge of `u` with its new
      priority as weight. */
  lemma TouchedLinks<L>(g: Graph<L>, s: L, u: L, qp0: map<L, real>,
                        prio0: map<L, real>, prev0: map<L, Option<L>>, col0: map<L, Color>,
                        rank: map<L, nat>, qp: map<L, real>, prio: map<L, real>,
                        prev: map<L, Option<L>>, col: map<L, Color>)
    requires Fields(g, qp0, prio0, prev0, col0) && RankedBy(g, qp0.Keys, rank) && u in rank
    requires LinkedBy(g, s, prio0, prev0, rank)
    requires Touched(g, u, Adjacent(g, u), qp0, prio0, prev0, col0, qp, prio, prev, col)
    ensures LinkedBy(g, s, prio, prev, rank)
  {
    forall x | x in g.nodes
      ensures if prev[x].Some? then
          && prev[x].value in rank
          && (x in rank ==> rank[prev[x].value] < rank[x])
          && exists f :: f in g.edges && Joining(f, prev[x].value, x) && f.weight == Some(prio[x])
        else x == s || prio[x] == INF
    {
      if x in Adjacent(g, u) && x in qp0 && prio[x] < prio0[x] {
        var e :| e in Incident(g, u) && (x == e.node1 || x == e.node2) && e.weight == Some(prio[x]);
        assert x != u && x !in rank;
        assert e in g.edges && Joining(e, prev[x].value, x);
      } else {
        assert prio[x] == prio0[x] && prev[x] == prev0[x];
      }
    }
  }

  /** The visit only lowers queued priorities. */
  lemma TouchedLower<L>(g: Graph<L>, u: L, qp0: map<L, real>, prio0: map<L, real>,
                        prev0: map<L, Option<L>>, col0: map<L, Color>, qp: map<L, real>,
                        prio: map<L, real>, prev: map<L, Option<L>>, col: map<L, Color>, y: L)
    requires Fields(g, qp0, prio0, prev0, col0)
    requires Touched(g, u, Adjacent(g, u), qp0, prio0, prev0, col0, qp, prio, prev, col)
    requires y in qp
    ensures y in qp0 && qp[y] <= qp0[y]
  {
    assert y in qp0 && y in prio0 && y in prev0;
    if y in Adjacent(g, u) {
      assert prio[y] <= prio0[y];
    } else {
      assert prio[y] == prio0[y];
    }
  }

  /** After the visit the bounds hold for `u` and every neighbour. */
  lemma TouchedSpan<L(!new)>(g: Graph<L>, s: L, u: L, q0: set<L>, qp0: map<L, real>,
                             prio0: map<L, real>, prev0: map<L, Option<L>>, col0: map<L, Color>,
                             qp: map<L, real>, prio: map<L, real>,
                             prev: map<L, Option<L>>, col: map<L, Color>)
    requires Fields(g, qp0, prio0, prev0, col0)
    requires SpanningFrom(g, s, u, q0, {}, qp0, prio0)
    requires Touched(g, u, Adjacent(g, u), qp0, prio0, prev0, col0, qp, prio, prev, col)
    ensures SpanningFrom(g, s, u, q0, Adjacent(g, u), qp, prio)
  {
    forall x, e | x in g.nodes && x !in q0 && e in Incident(g, x) && e.weight.Some? && Opposite(e, x) in qp
      ensures qp[Opposite(e, x)] <= e.weight.value
    {
      TouchedLower(g, u, qp0, prio0, prev0, col0, qp, prio, prev, col, Opposite(e, x));
    }
    forall e | e in Incident(g, u) && e.weight.Some? && Opposite(e, u) in Adjacent(g, u) && Opposite(e, u) in qp
      ensures qp[Opposite(e, u)] <= e.weight.value
    {
      var y := Opposite(e, u);
      assert y in qp0 && y in prio0 && y in prev0;
      assert !Lowers(e, y, prio[y]);
    }
    forall x | x in g.nodes && x !in qp.Keys && Reached(g, s, x) ensures x in prio && prio[x] < INF {
      assert x !in qp0 && x in prio0 && x in prev0;
    }
  }

  /** After the visit of every neighbour of `u` the main invariant holds. */
  lemma TouchedVisiting<L(!new)>(g: Graph<L>, s: L, u: L, q0: set<L>, qp0: map<L, real>,
                                 prio0: map<L, real>, prev0: map<L, Option<L>>, col0: map<L, Color>,
                                 rank: map<L, nat>, qp: map<L, real>, prio: map<L, real>,
                                 prev: map<L, Option<L>>, col: map<L, Color>)
    requires WellFormed(g) && Visiting(g, s, u, q0, {}, qp0, prio0, prev0, col0, rank)
    requires SpanningFrom(g, s, u, q0, {}, qp0, prio0)
    requires Touched(g, u, Adjacent(g, u), qp0, prio0, prev0, col0, qp, prio, prev, col)
    ensures Running(g, s, qp, prio, prev, col, rank) && Spanning(g, s, qp, prio)
  {
    TouchedFields(g, s, u, q0, qp0, prio0, prev0, col0, rank, qp, prio, prev, col);
    TouchedLinks(g, s, u, qp0, prio0, prev0, col0, rank, qp, prio, prev, col);
    assert Visiting(g, s, u, q0, Adjacent(g, u), qp, prio, prev, col, rank);
    VisitDone(g, s, u, q0, Adjacent(g, u), qp, prio, prev, col, rank);
    TouchedSpan(g, s, u, q0, qp0, prio0, prev0, col0, qp, prio, prev, col);
    VisitSpanDone(g, s, u, q0, Adjacent(g, u), qp, prio);
  }

  /** Whether the edge `e` lowers the priority `p` of its endpoint `v`. An
      edge without a weight never does: its missing weight compares false,
      as the NaN of an unweighted edge does. */
  predicate Lowers<L(==)>(e: Edge<L>, v: L, p: real)
  {
    (v == e.node1 || v == e.node2) && e.weight.Some? && e.weight.value < p
  }

  /** The priority `p` and predecessor `pv` of `v` after the edges `seen`
      of `u` were tried on it, starting from `p0` and `pv0`: no edge of
      `seen` lowers `p` any more, and a priority that fell is the weight of
      one of them, with `u` as predecessor. So `p` is the least of `p0` and
      the weights of the edges of `seen` that reach `v`. */
  ghost predicate LoweredBy<L>(seen: set<Edge<L>>, u: L, v: L, p0: real, pv0: Option<L>,
                               p: real, pv: Option<L>)
  {
    && p <= p0
    && (forall e :: e in seen ==> !Lowers(e, v, p))
    && if p < p0 then
         pv == Some(u) && exists e :: e in seen && (v == e.node1 || v == e.node2) && e.weight == Some(p)
       else
         pv == pv0
  }

  /** Trying one more edge `e` of `u` on `v`: when it lowers the priority,
      the priority becomes its weight and `u` the predecessor. */
  lemma LowerStep<L>(seen: set<Edge<L>>, u: L, v: L, p0: real, pv0: Option<L>, p: real, pv: Option<L>,
                     e: Edge<L>)
    requires LoweredBy(seen, u, v, p0, pv0, p, pv)
    ensures Lowers(e, v, p) ==> LoweredBy(seen + {e}, u, v, p0, pv0, e.weight.value, Some(u))
    ensures !Lowers(e, v, p) ==> LoweredBy(seen + {e}, u, v, p0, pv0, p, pv)
  {
    if Lowers(e, v, p) {
      forall f | f in seen + {e} ensures !Lowers(f, v, e.weight.value) {
        if f in seen {
          assert !Lowers(f, v, p);
        }
      }
      assert e in seen + {e} && (v == e.node1 || v == e.node2) && e.weight == Some(e.weight.value);
    } else if p < p0 {
      var f :| f in seen && (v == f.node1 || v == f.node2) && f.weight == Some(p);
      assert f in seen + {e};
    }
  }

  /** The state of the loop relaxing the edges `seen` of `u` for `v`,
      starting from the queue `qp0` and the fields `prio0` and `prev0`: only
      `v` changes, in the queue and in its fields, as `LoweredBy` says, and
      nothing changes when `v` has left the queue. */
  ghost predicate RelaxingAt<L>(u: L, v: L, seen: set<Edge<L>>, qp0: map<L, real>,
                                prio0: map<L, real>, prev0: map<L, Option<L>>,
                                qp: map<L, real>, prio: map<L, real>, prev: map<L, Option<L>>)
  {
    && v in prio0 && v in prev0 && v in prio && v in prev
    && prio == prio0[v := prio[v]] && prev == prev0[v := prev[v]]
    && qp == (if v in qp0 then qp0[v := prio[v]] else qp0)
    && (v !in qp0 ==> prio == prio0 && prev == prev0)
    && LoweredBy(seen, u, v, prio0[v], prev0[v], prio[v], prev[v])
  }

  /** Relaxing one more edge `e` keeps `RelaxingAt`. */
  lemma RelaxingStep<L>(u: L, v: L, seen: set<Edge<L>>, qp0: map<L, real>,
                        prio0: map<L, real>, prev0: map<L, Option<L>>,
                        qp1: map<L, real>, prio1: map<L, real>, prev1: map<L, Option<L>>, e: Edge<L>,
                        qp: map<L, real>, prio: map<L, real>, prev: map<L, Option<L>>)
    requires RelaxingAt(u, v, seen, qp0, prio0, prev0, qp1, prio1, prev1)
    requires Lowers(e, v, prio1[v]) ==>
      && v in qp1 && prio == prio1[v := e.weight.value] && prev == prev1[v := Some(u)]
      && qp == qp1[v := e.weight.value]
    requires !Lowers(e, v, prio1[v]) ==> prio == prio1 && prev == prev1 && qp == qp1
    ensures RelaxingAt(u, v, seen + {e}, qp0, prio0, prev0, qp, prio, prev)
  {
    LowerStep(seen, u, v, prio0[v], prev0[v], prio1[v], prev1[v], e);
    if Lowers(e, v, prio1[v]) {
      assert prio == prio0[v := prio[v]];
      assert prev == prev0[v := prev[v]];
      assert qp == qp0[v := prio[v]];
    }
  }

  /** The graph of the edges whose weight is below INF: the edges along
      which an infinite priority can fall. */
  function Light<L(==)>(g: Graph<L>): Graph<L>
  {
    var light := set e | e in g.edges && e.weight.Some? && e.weight.value < INF;
    Graph(g.nodes, light, g.directed)
  }

  /** The source `s` reaches `v` along edges whose weight is below INF. */
  ghost predicate Reached<L(!new)>(g: Graph<L>, s: L, v: L)
  {
    Reaches(Light(g), s, v)
  }

  /** A weighted edge of a node out of `q` leads out of the queue `qp`, or
      to a queued node whose priority is at most the edge's weight. */
  ghost predicate BoundedBy<L>(g: Graph<L>, q: set<L>, qp: map<L, real>)
  {
    forall x, e :: x in g.nodes && x !in q && e in Incident(g, x) && e.weight.Some? && Opposite(e, x) in qp ==>
      qp[Opposite(e, x)] <= e.weight.value
  }

  /** The same for the edges of `u` leading to the visited neighbours `done`. */
  ghost predicate BoundedFrom<L>(g: Graph<L>, u: L, done: set<L>, qp: map<L, real>)
  {
    forall e :: e in Incident(g, u) && e.weight.Some? && Opposite(e, u) in done && Opposite(e, u) in qp ==>
      qp[Opposite(e, u)] <= e.weight.value
  }

  /** Every node out of the queue `q` that the source reaches along light
      edges has a finite priority. */
  ghost predicate FiniteBy<L(!new)>(g: Graph<L>, s: L, q: set<L>, prio: map<L, real>)
  {
    forall x :: x in g.nodes && x !in q && Reached(g, s, x) ==> x in prio && prio[x] < INF
  }

  /** What the main loop keeps towards a spanning tree. */
  ghost predicate Spanning<L(!new)>(g: Graph<L>, s: L, qp: map<L, real>, prio: map<L, real>)
  {
    BoundedBy(g, qp.Keys, qp) && FiniteBy(g, s, qp.Keys, prio)
  }

  /** What the visit of the neighbours of `u`, extracted from `q0`, keeps
      towards a spanning tree. */
  ghost predicate SpanningFrom<L(!new)>(g: Graph<L>, s: L, u: L, q0: set<L>, done: set<L>,
                                        qp: map<L, real>, prio: map<L, real>)
  {
    BoundedBy(g, q0, qp) && BoundedFrom(g, u, done, qp) && FiniteBy(g, s, qp.Keys, prio)
  }

  /** Once the source has left the queue, a queued node that the source
      reaches along light edges means some queued node has a finite
      priority: the first queued node on the walk, bounded by the light edge
      that enters it. */
  lemma {:induction false} QueuedReached<L(!new)>(g: Graph<L>, s: L, qp: map<L, real>, v: L)
    requires s !in qp && v in qp && Reached(g, s, v) && BoundedBy(g, qp.Keys, qp)
    ensures exists y :: y in qp && qp[y] < INF
  {
    var h := Light(g);
    var p :| |p| > 0 && p[0] == s && p[|p| - 1] == v && WalkWithin(h, p, g.nodes);
    var i := 0;
    while p[i + 1] !in qp
      invariant 0 <= i < |p| - 1 && p[i] !in qp
      decreases |p| - i
    {
      i := i + 1;
    }
    var x, y := p[i], p[i + 1];
    assert y in Adjacent(h, x);
    var e :| e in Incident(h, x) && Opposite(e, x) == y;
    assert e in Incident(g, x) && e.weight.Some? && e.weight.value < INF;
    assert qp[y] <= e.weight.value;
  }

  /** Extracting a node of least priority keeps the bounds, and the node
      has a finite priority when the source reaches it along light edges. */
  lemma ExtractSpan<L(!new)>(g: Graph<L>, s: L, qp: map<L, real>, prio: map<L, real>,
                             prev: map<L, Option<L>>, col: map<L, Color>, rank: map<L, nat>, u: L)
    requires Running(g, s, qp, prio, prev, col, rank) && Spanning(g, s, qp, prio)
    requires u in qp && forall x :: x in qp ==> qp[u] <= qp[x]
    ensures SpanningFrom(g, s, u, qp.Keys, {}, qp - {u}, prio)
  {
    if Reached(g, s, u) {
      if s in qp {
        assert qp[u] <= qp[s] == prio[s] == 0.0;
      } else {
        QueuedReached(g, s, qp, u);
      }
    }
    assert (qp - {u}).Keys == qp.Keys - {u};
  }

  /** When every neighbour of `u` has been visited the bounds hold for `u`
      too. */
  lemma VisitSpanDone<L(!new)>(g: Graph<L>, s: L, u: L, q0: set<L>, done: set<L>, qp: map<L, real>,
                               prio: map<L, real>)
    requires SpanningFrom(g, s, u, q0, done, qp, prio) && Adjacent(g, u) <= done && q0 == qp.Keys + {u}
    ensures Spanning(g, s, qp, prio)
  {
    forall x, e | x in g.nodes && x !in qp.Keys && e in Incident(g, x) && e.weight.Some? && Opposite(e, x) in qp
      ensures qp[Opposite(e, x)] <= e.weight.value
    {
      if x == u {
        assert Opposite(e, u) in Adjacent(g, u);
      }
    }
  }

  /** Every predecessor is a node ranked before its node, so following the
      predecessors ends. */
  ghost predicate Descending<L>(g: Graph<L>, prev: map<L, Option<L>>, rank: map<L, nat>)
  {
    && g.nodes <= prev.Keys && g.nodes <= rank.Keys
    && forall x :: x in g.nodes && prev[x].Some? ==> prev[x].value in g.nodes && rank[prev[x].value] < rank[x]
  }

  /** The node where following the predecessors from `v` ends. */
  ghost function Root<L>(g: Graph<L>, prev: map<L, Option<L>>, rank: map<L, nat>, v: L): (r: L)
    requires Descending(g, prev, rank) && v in g.nodes
    ensures r in g.nodes && prev[r] == None
    decreases rank[v]
  {
    if prev[v].None? then v else Root(g, prev, rank, prev[v].value)
  }

  /** The fields Prim's algorithm leaves: the loop invariant with the queue
      empty; every node the source reaches along light edges has a finite
      priority and, but for the source, a predecessor; and in an undirected
      graph following the predecessors from such a node ends at the source,
      so they form a tree rooted at the source spanning those nodes. */
  ghost predicate Spanned<L(!new)>(g: Graph<L>, s: L, prio: map<L, real>, prev: map<L, Option<L>>,
                                   col: map<L, Color>, rank: map<L, nat>)
  {
    && Running(g, s, map[], prio, prev, col, rank)
    && (forall v :: v in g.nodes && Reached(g, s, v) ==> prio[v] < INF && (v != s ==> prev[v].Some?))
    && (!g.directed ==>
          && Descending(g, prev, rank)
          && forall v :: v in g.nodes && Reached(g, s, v) ==> Root(g, prev, rank, v) == s)
  }

  /** When the queue is empty every predecessor was ranked earlier. */
  lemma FinalDescending<L(!new)>(g: Graph<L>, s: L, prio: map<L, real>, prev: map<L, Option<L>>,
                                 col: map<L, Color>, rank: map<L, nat>)
    requires Running(g, s, map[], prio, prev, col, rank)
    ensures Descending(g, prev, rank)
  {
    assert rank.Keys == g.nodes;
  }

  /** In an undirected graph the predecessor of a node reached along light
      edges, joined to it by an edge of its finite priority, is reached
      too. */
  lemma PredecessorReached<L(!new)>(g: Graph<L>, s: L, prio: map<L, real>, prev: map<L, Option<L>>,
                                    rank: map<L, nat>, v: L)
    requires WellFormed(g) && !g.directed && g.nodes <= prio.Keys && g.nodes <= prev.Keys
    requires LinkedBy(g, s, prio, prev, rank)
    requires v in g.nodes && Reached(g, s, v) && prio[v] < INF && prev[v].Some?
    ensures Reached(g, s, prev[v].value)
  {
    var h, p := Light(g), prev[v].value;
    var e :| e in g.edges && Joining(e, p, v) && e.weight == Some(prio[v]);
    assert e in h.edges && e in Incident(h, v) && Opposite(e, v) == p;
    assert p in Adjacent(h, v) && p in g.nodes;
    assert WalkWithin(h, [v, p], g.nodes);
    ReachableTrans(h, g.nodes, s, v, p);
  }

  /** In an undirected graph following the predecessors from a node
      reached along light edges ends at the source. */
  lemma {:induction false} RootIsSource<L(!new)>(g: Graph<L>, s: L, prio: map<L, real>,
                                                 prev: map<L, Option<L>>, col: map<L, Color>,
                                                 rank: map<L, nat>, v: L)
    requires WellFormed(g) && !g.directed
    requires Running(g, s, map[], prio, prev, col, rank) && Spanning(g, s, map[], prio)
    requires Descending(g, prev, rank) && v in g.nodes && Reached(g, s, v)
    ensures Root(g, prev, rank, v) == s
    decreases rank[v]
  {
    if v != s {
      assert prio[v] < INF;
      assert prev[v].Some?;
      PredecessorReached(g, s, prio, prev, rank, v);
      RootIsSource(g, s, prio, prev, col, rank, prev[v].value);
    }
  }

  /** The loop invariant with an empty queue gives the spanning fields. */
  lemma SpanEnd<L(!new)>(g: Graph<L>, s: L, prio: map<L, real>, prev: map<L, Option<L>>,
                         col: map<L, Color>, rank: map<L, nat>)
    requires WellFormed(g)
    requires Running(g, s, map[], prio, prev, col, rank) && Spanning(g, s, map[], prio)
    ensures Spanned(g, s, prio, prev, col, rank)
  {
    forall v | v in g.nodes && Reached(g, s, v) ensures prio[v] < INF && (v != s ==> prev[v].Some?) {
      assert prio[v] < INF;
    }
    if !g.directed {
      FinalDescending(g, s, prio, prev, col, rank);
      forall v | v in g.nodes && Reached(g, s, v) ensures Root(g, prev, rank, v) == s {
        RootIsSource(g, s, prio, prev, col, rank, v);
      }
    }
  }

  /** One edge `e` of `u` in the loop for the neighbour `v`: when `v` is an
      endpoint of `e` and the weight of `e` is below the priority of `v`,
      `u` becomes the predecessor of `v` and the queue lowers the priority
      of `v` to that weight, refusing with NoSuchElement when `v` has left
      the queue. */
  method RelaxEdge<L(==)>(q: TernaryHeapMinPriorityQueue<L>, u: L, v: L, e: Edge<L>,
                          prio0: map<L, real>, prev0: map<L, Option<L>>)
    returns (r: Outcome, prio: map<L, real>, prev: map<L, Option<L>>)
    requires q.Valid() && v in prio0 && v in prev0
    requires v in q.priority ==> q.priority[v] == prio0[v]
    modifies q
    ensures q.Valid() && q.priority.Keys == old(q.priority.Keys) && |q.heap| == old(|q.heap|)
    ensures r == Pass || r == Fail(NoSuchElement)
    ensures r == Fail(NoSuchElement) <==> Lowers(e, v, prio0[v]) && v !in old(q.priority)
    ensures r == Pass ==>
      if Lowers(e, v, prio0[v]) then
        && prio == prio0[v := e.weight.value] && prev == prev0[v := Some(u)]
        && q.priority == old(q.priority)[v := e.weight.value]
      else
        prio == prio0 && prev == prev0 && q.priority == old(q.priority)
  {
    prio, prev, r := prio0, prev0, Pass;
    if v == e.node2 || v == e.node1 {
      if e.weight.Some? && e.weight.value < prio[v] {
        var w := e.weight.value;
        prev := prev[v := Some(u)];
        r := q.DecreasePriority(Some(v), w);
        if r == Pass {
          prio := prio[v := w];
        }
      }
    }
  }

  /** The loop over the edges of `u` for its neighbour `v`: the priority of
      `v` falls to the least of its own and the weights of the edges of `u`
      reaching it, refused with NoSuchElement when `v` has left the queue
      and some edge would lower it. */
  method Relax<L(==)>(q: TernaryHeapMinPriorityQueue<L>, g: Graph<L>, u: L, v: L,
                      prio0: map<L, real>, prev0: map<L, Option<L>>)
    returns (r: Outcome, prio: map<L, real>, prev: map<L, Option<L>>)
    requires q.Valid() && v in prio0 && v in prev0
    requires v in q.priority ==> q.priority[v] == prio0[v]
    modifies q
    ensures q.Valid() && q.priority.Keys == old(q.priority.Keys) && |q.heap| == old(|q.heap|)
    ensures r == Pass || r == Fail(NoSuchElement)
    ensures r == Fail(NoSuchElement) <==>
      v !in old(q.priority) && exists e :: e in Incident(g, u) && Lowers(e, v, prio0[v])
    ensures r == Pass ==> RelaxingAt(u, v, Incident(g, u), old(q.priority), prio0, prev0, q.priority, prio, prev)
  {
    var edges := Incident(g, u);
    prio, prev := prio0, prev0;
    var todo := edges;
    ghost var seen: set<Edge<L>> := {};
    while todo != {}
      invariant seen + todo == edges && seen !! todo
      invariant q.Valid() && q.priority.Keys == old(q.priority.Keys) && |q.heap| == old(|q.heap|)
      invariant RelaxingAt(u, v, seen, old(q.priority), prio0, prev0, q.priority, prio, prev)
      decreases |todo|
    {
      var e :| e in todo;
      ghost var qp1, prio1, prev1 := q.priority, prio, prev;
      r, prio, prev := RelaxEdge(q, u, v, e, prio, prev);
      if r.Fail? {
        assert e in Incident(g, u) && Lowers(e, v, prio0[v]);
        return;
      }
      RelaxingStep(u, v, seen, old(q.priority), prio0, prev0, qp1, prio1, prev1, e, q.priority, prio, prev);
      MoveOne(seen, todo, e);
      seen, todo := seen + {e}, todo - {e};
    }
    assert seen == edges;
    r := Pass;
  }

  /** One neighbour `v` of the extracted node `u`: unless `v` is black, the
      edges of `u` are relaxed for it and `u` turns black. The ghost
      parameters are the state before the visit of the neighbours `done`,
      which this visit extends by `v`. */
  method VisitNeighbour<L(==)>(q: TernaryHeapMinPriorityQueue<L>, g: Graph<L>, u: L, v: L,
                               prio0: map<L, real>, prev0: map<L, Option<L>>, col0: map<L, Color>,
                               ghost done: set<L>, ghost qpS: map<L, real>, ghost prioS: map<L, real>,
                               ghost prevS: map<L, Option<L>>, ghost colS: map<L, Color>)
    returns (r: Outcome, prio: map<L, real>, prev: map<L, Option<L>>, col: map<L, Color>)
    requires q.Valid() && Touched(g, u, done, qpS, prioS, prevS, colS, q.priority, prio0, prev0, col0)
    requires v !in done && v in colS && v in prioS && v in prevS
    requires u !in qpS && (v in qpS ==> colS[v] != Black)
    modifies q
    ensures q.Valid() && q.priority.Keys == old(q.priority.Keys) && |q.heap| == old(|q.heap|)
    ensures r == Pass || r == Fail(NoSuchElement)
    ensures r == Fail(NoSuchElement) <==>
      col0[v] != Black && v !in old(q.priority) && exists e :: e in Incident(g, u) && Lowers(e, v, prio0[v])
    ensures r == Pass ==> col == if col0[v] != Black then col0[u := Black] else col0
    ensures r == Pass ==>
      if col0[v] != Black then RelaxingAt(u, v, Incident(g, u), old(q.priority), prio0, prev0, q.priority, prio, prev)
      else q.priority == old(q.priority) && prio == prio0 && prev == prev0
    ensures r == Pass ==> Touched(g, u, done + {v}, qpS, prioS, prevS, colS, q.priority, prio, prev, col)
    ensures r == Fail(NoSuchElement) ==>
      v !in qpS && colS[v] != Black && exists e :: e in Incident(g, u) && Lowers(e, v, prioS[v])
  {
    prio, prev, col := prio0, prev0, col0;
    if col[v] != Black {
      r, prio, prev := Relax(q, g, u, v, prio, prev);
      if r.Fail? {
        return;
      }
      col := col[u := Black];
    }
    TouchStep(g, u, done, qpS, prioS, prevS, colS, old(q.priority), prio0, prev0, col0, v,
              q.priority, prio, prev, col);
    r := Pass;
  }

  /** What the loop over the neighbours of `u` needs of its start: the
      neighbours have fields, the queue follows the priorities and holds no
      black node, and `u` is no longer queued. */
  ghost predicate Ready<L>(g: Graph<L>, u: L, qp: map<L, real>, prio: map<L, real>,
                           prev: map<L, Option<L>>, col: map<L, Color>)
  {
    && (forall x :: x in Adjacent(g, u) ==> x in prio && x in prev && x in col)
    && (forall x :: x in qp ==> x in prio && qp[x] == prio[x] && x in col && col[x] != Black)
    && u !in qp
  }

  /** The state after an extraction is ready for the visit, and in an
      undirected graph without loops every neighbour that is not black is
      still queued. */
  lemma VisitReady<L>(g: Graph<L>, s: L, u: L, q0: set<L>, qp: map<L, real>,
                      prio: map<L, real>, prev: map<L, Option<L>>, col: map<L, Color>,
                      rank: map<L, nat>)
    requires WellFormed(g) && Visiting(g, s, u, q0, {}, qp, prio, prev, col, rank)
    ensures Ready(g, u, qp, prio, prev, col)
    ensures !g.directed && Loopless(g) ==>
      forall v :: v in Adjacent(g, u) && col[v] != Black ==> v in qp
  {
    AdjacentWithin(g, u);
    if !g.directed && Loopless(g) {
      forall v | v in Adjacent(g, u) && col[v] != Black ensures v in qp {
        NeighbourQueued(g, s, u, q0, {}, qp, prio, prev, col, rank, v);
      }
    }
  }

  /** The loop over the neighbours of the extracted node `u`: every queued
      neighbour is relaxed along the edges of `u`, nothing else changes, and
      `u` turns black when some neighbour is not black. It fails only for a
      neighbour that is neither black nor queued and that an edge of `u`
      would lower. */
  method VisitNeighbours<L(==)>(q: TernaryHeapMinPriorityQueue<L>, g: Graph<L>, u: L,
                                prio0: map<L, real>, prev0: map<L, Option<L>>, col0: map<L, Color>)
    returns (r: Outcome, prio: map<L, real>, prev: map<L, Option<L>>, col: map<L, Color>)
    requires q.Valid() && Ready(g, u, q.priority, prio0, prev0, col0)
    modifies q
    ensures q.Valid() && q.priority.Keys == old(q.priority.Keys) && |q.heap| == old(|q.heap|)
    ensures r == Pass || r == Fail(NoSuchElement)
    ensures r == Fail(NoSuchElement) ==>
      exists v :: (v in Adjacent(g, u) && v !in old(q.priority) && col0[v] != Black &&
                   exists e :: e in Incident(g, u) && Lowers(e, v, prio0[v]))
    ensures r == Pass ==>
      Touched(g, u, Adjacent(g, u), old(q.priority), prio0, prev0, col0, q.priority, prio, prev, col)
  {
    prio, prev, col := prio0, prev0, col0;
    var adjacent := Adjacent(g, u);
    var todo := adjacent;
    ghost var done: set<L> := {};
    while todo != {}
      invariant done + todo == adjacent && done !! todo
      invariant q.Valid() && q.priority.Keys == old(q.priority.Keys) && |q.heap| == old(|q.heap|)
      invariant Touched(g, u, done, old(q.priority), prio0, prev0, col0, q.priority, prio, prev, col)
      decreases |todo|
    {
      var v :| v in todo;
      r, prio, prev, col := VisitNeighbour(q, g, u, v, prio, prev, col, done, old(q.priority), prio0, prev0, col0);
      if r.Fail? {
        return;
      }
      MoveOne(done, todo, v);
      todo, done := todo - {v}, done + {v};
    }
    assert done == adjacent;
    r := Pass;
  }

  /** Extracts a node of least priority and gives it the next rank. */
  method ExtractNext<L(==,!new)>(q: TernaryHeapMinPriorityQueue<L>, g: Graph<L>, s: L,
                                 ghost prio: map<L, real>, ghost prev: map<L, Option<L>>,
                                 ghost col: map<L, Color>, ghost rank0: map<L, nat>)
    returns (u: L, ghost q0: set<L>, ghost rank: map<L, nat>)
    requires q.Valid() && Running(g, s, q.priority, prio, prev, col, rank0) && q.heap != []
    requires Spanning(g, s, q.priority, prio)
    modifies q
    ensures q.Valid() && |q.heap| == old(|q.heap|) - 1
    ensures u in old(q.priority) && forall x :: x in old(q.priority) ==> old(q.priority)[u] <= old(q.priority)[x]
    ensures q.priority == old(q.priority) - {u} && q0 == old(q.priority).Keys && rank == rank0[u := |rank0|]
    ensures Visiting(g, s, u, q0, {}, q.priority, prio, prev, col, rank)
    ensures SpanningFrom(g, s, u, q0, {}, q.priority, prio)
  {
    q0 := q.priority.Keys;
    var m := q.ExtractMinimum();
    u := m.value;
    ExtractStep(g, s, old(q.priority), prio, prev, col, rank0, u);
    ExtractSpan(g, s, old(q.priority), prio, prev, col, rank0, u);
    rank := rank0[u := |rank0|];
  }

  /** The main loop: extract a node of least priority and visit its
      neighbours until the queue is empty. */
  method Grow<L(==,!new)>(q: TernaryHeapMinPriorityQueue<L>, g: Graph<L>, s: L,
                          prio0: map<L, real>, prev0: map<L, Option<L>>, col0: map<L, Color>)
    returns (r: Outcome, prio: map<L, real>, prev: map<L, Option<L>>, col: map<L, Color>,
             ghost rank: map<L, nat>)
    requires WellFormed(g)
    requires q.Valid() && Running(g, s, q.priority, prio0, prev0, col0, map[])
    requires Spanning(g, s, q.priority, prio0)
    modifies q
    ensures q.Valid()
    ensures r == Pass || r == Fail(NoSuchElement)
    ensures !g.directed && Loopless(g) ==> r == Pass
    ensures r == Pass ==> q.heap == [] && q.priority == map[] && Spanned(g, s, prio, prev, col, rank)
  {
    prio, prev, col, rank := prio0, prev0, col0, map[];
    while q.heap != []
      invariant q.Valid() && Running(g, s, q.priority, prio, prev, col, rank)
      invariant Spanning(g, s, q.priority, prio)
      decreases |q.heap|
    {
      var u;
      ghost var q0;
      u, q0, rank := ExtractNext(q, g, s, prio, prev, col, rank);
      VisitReady(g, s, u, q0, q.priority, prio, prev, col, rank);
      ghost var qp1, prio1, prev1, col1 := q.priority, prio, prev, col;
      r, prio, prev, col := VisitNeighbours(q, g, u, prio, prev, col);
      if r.Fail? {
        return;
      }
      TouchedVisiting(g, s, u, q0, qp1, prio1, prev1, col1, rank, q.priority, prio, prev, col);
    }
    SizeIsCount(q.heap, q.priority, q.handle);
    assert q.priority.Keys == {};
    SpanEnd(g, s, prio, prev, col, rank);
    r := Pass;
  }

  /** The first set-up loop: every node gets an infinite priority and no
      predecessor. */
  method Reset<L(==)>(nodes: set<L>) returns (prio: map<L, real>, prev: map<L, Option<L>>)
    ensures prio.Keys == nodes && prev.Keys == nodes
    ensures forall x :: x in nodes ==> prio[x] == INF && prev[x] == None
  {
    prio, prev := map[], map[];
    var todo := nodes;
    while todo != {}
      invariant todo <= nodes
      invariant prio.Keys == nodes - todo && prev.Keys == nodes - todo
      invariant forall x :: x in prio ==> prio[x] == INF && x in prev && prev[x] == None
      decreases |todo|
    {
      var v :| v in todo;
      prio, prev := prio[v := INF], prev[v := None];
      RemoveShrinks(todo, v);
      todo := todo - {v};
    }
  }

  /** The second set-up loop: every node turns white and enters the queue
      with its priority. */
  method Load<L(==)>(q: TernaryHeapMinPriorityQueue<L>, nodes: set<L>, prio: map<L, real>)
    returns (col: map<L, Color>)
    requires nodes <= prio.Keys && q.Valid() && q.priority == map[]
    modifies q
    ensures q.Valid() && q.priority.Keys == nodes
    ensures forall x :: x in q.priority ==> q.priority[x] == prio[x]
    ensures col.Keys == nodes && forall x :: x in nodes ==> col[x] == White
  {
    col := map[];
    var todo := nodes;
    while todo != {}
      invariant todo <= nodes
      invariant q.Valid() && q.priority.Keys == nodes - todo && col.Keys == nodes - todo
      invariant forall x :: x in q.priority ==> q.priority[x] == prio[x]
      invariant forall x :: x in col ==> col[x] == White
      decreases |todo|
    {
      var node :| node in todo;
      col := col[node := White];
      var inserted := q.Insert(Some(node), prio[node]);
      RemoveShrinks(todo, node);
      todo := todo - {node};
    }
  }

  /** The set-up before the main loop: the fields are reset, the source
      gets priority 0 and the nodes are loaded into the queue. */
  method Prepare<L(==,!new)>(q: TernaryHeapMinPriorityQueue<L>, g: Graph<L>, s: L)
    returns (prio: map<L, real>, prev: map<L, Option<L>>, col: map<L, Color>)
    requires s in g.nodes && q.Valid() && q.priority == map[]
    modifies q
    ensures q.Valid() && Running(g, s, q.priority, prio, prev, col, map[]) && Spanning(g, s, q.priority, prio)
  {
    prio, prev := Reset(g.nodes);
    prio, prev := prio[s := 0.0], prev[s := None];
    col := Load(q, g.nodes, prio);
    Start(g, s, q.priority, prio, prev, col);
  }

  /** Runs the set-up and the main loop on a graph that passed the input
      checks. */
  method Span<L(==,!new)>(q: TernaryHeapMinPriorityQueue<L>, g: Graph<L>, s: L)
    returns (r: Outcome, prio: map<L, real>, prev: map<L, Option<L>>, col: map<L, Color>,
             ghost rank: map<L, nat>)
    requires WellFormed(g) && s in g.nodes && q.Valid() && q.priority == map[]
    modifies q
    ensures q.Valid()
    ensures r == Pass || r == Fail(NoSuchElement)
    ensures !g.directed && Loopless(g) ==> r == Pass
    ensures r == Pass ==> q.heap == [] && q.priority == map[] && Spanned(g, s, prio, prev, col, rank)
  {
    prio, prev, col := Prepare(q, g, s);
    r, prio, prev, col, rank := Grow(q, g, s, prio, prev, col);
  }

  /** The minimum spanning tree finder. It owns its priority queue; the
      priority, predecessor and colour fields it leaves on the nodes are
      handed back as maps keyed by node. */
  class PrimMSP<L(==,!new)> {
    /** The queue of the nodes not yet extracted. */
    const queue: TernaryHeapMinPriorityQueue<L>

    constructor ()
      ensures queue.Valid() && queue.heap == [] && queue.priority == map[]
    {
      queue := new TernaryHeapMinPriorityQueue<L>();
    }

    /** Computes a spanning tree of `g` rooted at `s` in the predecessor
        fields. The weights are checked only when the graph is directed: a
        missing or negative weight is refused there. `rank` is the order in
        which the nodes left the queue. */
    method ComputeMSP(g: Option<Graph<L>>, s: Option<L>)
      returns (r: Outcome, priority: map<L, real>, previous: map<L, Option<L>>, color: map<L, Color>,
               ghost rank: map<L, nat>)
      requires queue.Valid() && queue.priority == map[]
      requires g.Some? ==> WellFormed(g.value)
      modifies queue
      ensures queue.Valid()
      ensures g.None? || s.None? ==> r == Fail(NullPointer)
      ensures g.Some? && s.Some? && s.value !in g.value.nodes ==> r == Fail(IllegalArgument)
      ensures g.Some? && s.Some? && s.value in g.value.nodes ==>
        if !WeightsChecked(g.value) then r == Fail(IllegalArgument)
        else r == Pass || r == Fail(NoSuchElement)
      ensures g.Some? && s.Some? && s.value in g.value.nodes && !g.value.directed && Loopless(g.value) ==>
        r == Pass
      ensures r == Pass ==>
        && g.Some? && s.Some? && queue.heap == [] && queue.priority == map[]
        && Spanned(g.value, s.value, priority, previous, color, rank)
    {
      priority, previous, color, rank := map[], map[], map[], map[];
      if g.None? || s.None? {
        return Fail(NullPointer), priority, previous, color, rank;
      }
      var G, s0 := g.value, s.value;
      if s0 !in G.nodes {
        return Fail(IllegalArgument), priority, previous, color, rank;
      }
      if G.directed {
        var ok := CheckWeights(G.edges);
        if !ok {
          return Fail(IllegalArgument), priority, previous, color, rank;
        }
      }
      r, priority, previous, color, rank := Span(queue, G, s0);
    }

    /** The input checks as the documentation states them: a directed
        graph is refused, and so is any graph with a missing or negative
        weight. */
    method ComputeMSPAsDocumented(g: Option<Graph<L>>, s: Option<L>)
      returns (r: Outcome, priority: map<L, real>, previous: map<L, Option<L>>, color: map<L, Color>,
               ghost rank: map<L, nat>)
      requires queue.Valid() && queue.priority == map[]
      requires g.Some? ==> WellFormed(g.value)
      modifies queue
      ensures queue.Valid()
      ensures g.None? || s.None? ==> r == Fail(NullPointer)
      ensures g.Some? && s.Some? && s.value !in g.value.nodes ==> r == Fail(IllegalArgument)
      ensures g.Some? && s.Some? && s.value in g.value.nodes ==>
        if !DocumentedInput(g.value) then r == Fail(IllegalArgument)
        else r == Pass || r == Fail(NoSuchElement)
      ensures g.Some? && s.Some? && s.value in g.value.nodes && DocumentedInput(g.value) && Loopless(g.value) ==>
        r == Pass
      ensures r == Pass ==>
        && g.Some? && s.Some? && DocumentedInput(g.value)
        && queue.heap == [] && queue.priority == map[]
        && Spanned(g.value, s.value, priority, previous, color, rank)
    {
      priority, previous, color, rank := map[], map[], map[], map[];
      if g.None? || s.None? {
        return Fail(NullPointer), priority, previous, color, rank;
      }
      var G, s0 := g.value, s.value;
      if s0 !in G.nodes {
        return Fail(IllegalArgument), priority, previous, color, rank;
      }
      if G.directed {
        return Fail(IllegalArgument), priority, previous, color, rank;
      }
      var ok := CheckWeights(G.edges);
      if !ok {
        return Fail(IllegalArgument), priority, previous, color, rank;
      }
      r, priority, previous, color, rank := Span(queue, G, s0);
    }
  }

  /** A directed graph whose one edge has a non-negative weight passes the
      input check as written, so `ComputeMSP` runs on it, although it is not
      an input the documentation admits: `ComputeMSPAsDocumented` returns
      IllegalArgument for it. */
  lemma DirectedAccepted()
    ensures var g := Graph({0, 1}, {Edge(0, 1, true, Some(1.0))}, true);
      && WellFormed(g) && 0 in g.nodes && WeightsChecked(g) && !DocumentedInput(g)
  {
    var g := Graph({0, 1}, {Edge(0, 1, true, Some(1.0))}, true);
    assert forall e :: e in g.edges ==> e == Edge(0, 1, true, Some(1.0));
  }
}
