/** Graphs as values: the node and edge sets a graph object exposes through
    `getNodes` and `getEdges`, and the queries both representations answer
    the same way. A node is identified by its label. */
module Graphs {
  import opened Common

  /** An edge: its two endpoints, its orientation and its optional weight. */
  datatype Edge<L> = Edge(node1: L, node2: L, directed: bool, weight: Option<real>)

  /** Edge equality: the same orientation and the same endpoints, in order
      for a directed edge and in either order for an undirected one; the
      weight is not compared. */
  predicate Same<L(==)>(e: Edge<L>, f: Edge<L>)
  {
    && e.directed == f.directed
    && ((e.node1 == f.node1 && e.node2 == f.node2)
        || (!e.directed && e.node1 == f.node2 && e.node2 == f.node1))
  }

  /** The colours the graph algorithms give to nodes while visiting them. */
  datatype Color = White | Grey | Black

  /** A graph: its nodes, its edges and its orientation. */
  datatype Graph<L> = Graph(nodes: set<L>, edges: set<Edge<L>>, directed: bool)

  /** What both representations guarantee: edges join nodes of the graph and
      share its orientation, and no two stored edges are equal. */
  ghost predicate WellFormed<L>(g: Graph<L>)
  {
    && (forall e :: e in g.edges ==>
          e.node1 in g.nodes && e.node2 in g.nodes && e.directed == g.directed)
    && (forall e, f :: e in g.edges && f in g.edges && Same(e, f) ==> e == f)
  }

  /** Whether some stored edge equals `e`. */
  predicate HasEdge<L(==)>(g: Graph<L>, e: Edge<L>)
  {
    exists f :: f in g.edges && Same(f, e)
  }

  /** The edges of `u`: those leaving it in a directed graph, those touching
      it in an undirected one. */
  function Incident<L(==)>(g: Graph<L>, u: L): set<Edge<L>>
  {
    set e | e in g.edges && (e.node1 == u || (!g.directed && e.node2 == u))
  }

  /** The endpoint of `e` other than `u` (`u` itself for a loop). */
  function Opposite<L(==)>(e: Edge<L>, u: L): L
  {
    if e.node1 == u then e.node2 else e.node1
  }

  /** The nodes adjacent to `u`: the other endpoints of its edges. */
  function Adjacent<L(==)>(g: Graph<L>, u: L): set<L>
  {
    set e | e in Incident(g, u) :: Opposite(e, u)
  }

  /** In a well-formed graph the edges of a node are edges of the graph
      and its neighbours are nodes of the graph. */
  lemma AdjacentWithin<L>(g: Graph<L>, u: L)
    requires WellFormed(g)
    ensures Incident(g, u) <= g.edges && Adjacent(g, u) <= g.nodes
  {
    forall v | v in Adjacent(g, u) ensures v in g.nodes {
      var e :| e in Incident(g, u) && Opposite(e, u) == v;
    }
  }

  /** The edges entering `u`. */
  function Ingoing<L(==)>(g: Graph<L>, u: L): set<Edge<L>>
  {
    set e | e in g.edges && e.node2 == u
  }

  /** The sources of the edges entering `u`. */
  function Predecessors<L(==)>(g: Graph<L>, u: L): set<L>
  {
    set e | e in Ingoing(g, u) :: e.node1
  }

  /** An edge turned around, as the transpose stores it: unweighted and
      directed. */
  function Reversed<L>(e: Edge<L>): Edge<L>
  {
    Edge(e.node2, e.node1, true, None)
  }

  /** The transpose: the same nodes, every edge reversed. */
  function Transpose<L(==)>(g: Graph<L>): (t: Graph<L>)
    ensures t.nodes == g.nodes && t.directed
  {
    Graph(g.nodes, set e | e in g.edges :: Reversed(e), true)
  }

  /** There is an edge from `a` to `b` in `g` exactly when there is one from
      `b` to `a` in its transpose. */
  lemma TransposeEdges<L>(g: Graph<L>, a: L, b: L)
    ensures (exists e :: e in g.edges && e.node1 == a && e.node2 == b)
        <==> (exists f :: f in Transpose(g).edges && f.node1 == b && f.node2 == a)
  {
    if exists f :: f in Transpose(g).edges && f.node1 == b && f.node2 == a {
      var f :| f in Transpose(g).edges && f.node1 == b && f.node2 == a;
      var e :| e in g.edges && f == Reversed(e);
      assert e.node1 == a && e.node2 == b;
    }
    if exists e :: e in g.edges && e.node1 == a && e.node2 == b {
      var e :| e in g.edges && e.node1 == a && e.node2 == b;
      assert Reversed(e) in Transpose(g).edges;
    }
  }

  /** In a directed graph, `v` is adjacent to `u` exactly when `u` is adjacent
      to `v` in the transpose. */
  lemma TransposeReverses<L>(g: Graph<L>, u: L, v: L)
    requires g.directed
    ensures v in Adjacent(g, u) <==> u in Adjacent(Transpose(g), v)
  {
    var t := Transpose(g);
    if v in Adjacent(g, u) {
      var e :| e in Incident(g, u) && Opposite(e, u) == v;
      assert Reversed(e) in t.edges && Reversed(e) in Incident(t, v);
    }
    if u in Adjacent(t, v) {
      var r :| r in Incident(t, v) && Opposite(r, v) == u;
      var e :| e in g.edges && r == Reversed(e);
      assert e in Incident(g, u);
    }
  }

  /** In an undirected graph adjacency is symmetric. */
  lemma UndirectedSymmetric<L>(g: Graph<L>, u: L, v: L)
    requires !g.directed
    ensures v in Adjacent(g, u) <==> u in Adjacent(g, v)
  {
    if v in Adjacent(g, u) {
      var e :| e in Incident(g, u) && Opposite(e, u) == v;
      assert e in Incident(g, v) && Opposite(e, v) == u;
    }
    if u in Adjacent(g, v) {
      var e :| e in Incident(g, v) && Opposite(e, v) == u;
      assert e in Incident(g, u) && Opposite(e, u) == v;
    }
  }

  /** `p` is a walk of `g` whose nodes all lie in `w`. */
  ghost predicate WalkWithin<L>(g: Graph<L>, p: seq<L>, w: set<L>)
  {
    && (forall i :: 0 <= i < |p| ==> p[i] in w)
    && (forall i :: 0 <= i < |p| - 1 ==> p[i + 1] in Adjacent(g, p[i]))
  }

  /** `v` can be reached from `u` along a walk of `g` through nodes of `w`. */
  ghost predicate ReachableWithin<L(!new)>(g: Graph<L>, w: set<L>, u: L, v: L)
  {
    exists p :: |p| > 0 && p[0] == u && p[|p| - 1] == v && WalkWithin(g, p, w)
  }

  /** A step from `u` to a node of `w` followed by a walk within `w`. */
  lemma ReachableStep<L(!new)>(g: Graph<L>, w: set<L>, u: L, n: L, v: L)
    requires u in w && n in Adjacent(g, u) && ReachableWithin(g, w, n, v)
    ensures ReachableWithin(g, w, u, v)
  {
    var p :| |p| > 0 && p[0] == n && p[|p| - 1] == v && WalkWithin(g, p, w);
    var q := [u] + p;
    assert q[|q| - 1] == v;
    assert forall i :: 0 < i < |q| ==> q[i] == p[i - 1];
    assert WalkWithin(g, q, w);
  }

  /** Reachability within a set is reachability within any larger set. */
  lemma ReachableMonotonic<L(!new)>(g: Graph<L>, w: set<L>, w': set<L>, u: L, v: L)
    requires w <= w' && ReachableWithin(g, w, u, v)
    ensures ReachableWithin(g, w', u, v)
  {
    var p :| |p| > 0 && p[0] == u && p[|p| - 1] == v && WalkWithin(g, p, w);
    assert WalkWithin(g, p, w');
  }

  /** Every node reaches itself. */
  lemma ReachableSelf<L(!new)>(g: Graph<L>, w: set<L>, u: L)
    requires u in w
    ensures ReachableWithin(g, w, u, u)
  {
    assert WalkWithin(g, [u], w);
  }

  /** A set that holds `u`, lies within `w` and is closed under the steps
      that stay in `w` holds every node reachable from `u` within `w`. */
  lemma {:induction false} ClosedHoldsReachable<L(!new)>(g: Graph<L>, w: set<L>, s: set<L>, u: L, v: L)
    requires u in s && s <= w
    requires forall x, y :: x in s && y in Adjacent(g, x) && y in w ==> y in s
    requires ReachableWithin(g, w, u, v)
    ensures v in s
  {
    var p :| |p| > 0 && p[0] == u && p[|p| - 1] == v && WalkWithin(g, p, w);
    var i := 0;
    while i < |p| - 1
      invariant 0 <= i < |p| && p[i] in s
    {
      assert p[i + 1] in Adjacent(g, p[i]) && p[i + 1] in w;
      i := i + 1;
    }
  }

  /** A walk within `w` from `u` to `v` in the transpose of a directed graph,
      read backwards, is a walk within `w` from `v` to `u` in the graph. */
  lemma ReachableTransposed<L(!new)>(g: Graph<L>, w: set<L>, u: L, v: L)
    requires g.directed && ReachableWithin(Transpose(g), w, u, v)
    ensures ReachableWithin(g, w, v, u)
  {
    var t := Transpose(g);
    var p :| |p| > 0 && p[0] == u && p[|p| - 1] == v && WalkWithin(t, p, w);
    var n := |p|;
    var q := seq(n, k requires 0 <= k < n => p[n - 1 - k]);
    forall k | 0 <= k < n - 1 ensures q[k + 1] in Adjacent(g, q[k]) {
      var i := n - 2 - k;
      assert p[i + 1] in Adjacent(t, p[i]);
      TransposeReverses(g, p[i + 1], p[i]);
    }
    assert q[0] == v && q[n - 1] == u;
    assert WalkWithin(g, q, w);
  }

  /** A walk within `w` in a directed graph, read backwards, is a walk
      within `w` in its transpose. */
  lemma ReachableToTransposed<L(!new)>(g: Graph<L>, w: set<L>, u: L, v: L)
    requires g.directed && ReachableWithin(g, w, u, v)
    ensures ReachableWithin(Transpose(g), w, v, u)
  {
    var t := Transpose(g);
    var p :| |p| > 0 && p[0] == u && p[|p| - 1] == v && WalkWithin(g, p, w);
    var n := |p|;
    var q := seq(n, k requires 0 <= k < n => p[n - 1 - k]);
    forall k | 0 <= k < n - 1 ensures q[k + 1] in Adjacent(t, q[k]) {
      var i := n - 2 - k;
      assert p[i + 1] in Adjacent(g, p[i]);
      TransposeReverses(g, p[i], p[i + 1]);
    }
    assert q[0] == v && q[n - 1] == u;
    assert WalkWithin(t, q, w);
  }

  /** Both ends of a walk within `w` lie in `w`. */
  lemma ReachableEnds<L(!new)>(g: Graph<L>, w: set<L>, u: L, v: L)
    requires ReachableWithin(g, w, u, v)
    ensures u in w && v in w
  {
    var p :| |p| > 0 && p[0] == u && p[|p| - 1] == v && WalkWithin(g, p, w);
    assert p[|p| - 1] in w;
  }

  /** A walk from `a` to `b` followed by a walk from `b` to `c` is a walk
      from `a` to `c`. */
  lemma ReachableTrans<L(!new)>(g: Graph<L>, w: set<L>, a: L, b: L, c: L)
    requires ReachableWithin(g, w, a, b) && ReachableWithin(g, w, b, c)
    ensures ReachableWithin(g, w, a, c)
  {
    var p :| |p| > 0 && p[0] == a && p[|p| - 1] == b && WalkWithin(g, p, w);
    var q :| |q| > 0 && q[0] == b && q[|q| - 1] == c && WalkWithin(g, q, w);
    var r := p + q[1..];
    assert forall i :: 0 <= i < |p| ==> r[i] == p[i];
    assert forall i :: |p| <= i < |r| ==> r[i] == q[i - |p| + 1];
    assert r[|r| - 1] == c;
    assert WalkWithin(g, r, w);
  }

  /** `v` can be reached from `u` in `g`. */
  ghost predicate Reaches<L(!new)>(g: Graph<L>, u: L, v: L)
  {
    ReachableWithin(g, g.nodes, u, v)
  }

  /** `u` and `v` reach each other: they belong to the same strongly
      connected component. */
  ghost predicate StronglyConnected<L(!new)>(g: Graph<L>, u: L, v: L)
  {
    Reaches(g, u, v) && Reaches(g, v, u)
  }

  /** Every node on a walk between two strongly connected nodes is strongly
      connected to them; so a walk from `x` back to `r` can be kept inside
      any set holding every node strongly connected to `r`. */
  lemma ReachableInComponent<L(!new)>(g: Graph<L>, w: set<L>, r: L, x: L)
    requires StronglyConnected(g, r, x)
    requires forall y :: StronglyConnected(g, r, y) ==> y in w
    ensures ReachableWithin(g, w, x, r)
  {
    var p :| |p| > 0 && p[0] == x && p[|p| - 1] == r && WalkWithin(g, p, g.nodes);
    forall i | 0 <= i < |p| ensures p[i] in w {
      var prefix, suffix := p[..i + 1], p[i..];
      assert WalkWithin(g, prefix, g.nodes) && prefix[|prefix| - 1] == p[i];
      assert WalkWithin(g, suffix, g.nodes) && suffix[|suffix| - 1] == r;
      ReachableTrans(g, g.nodes, r, x, p[i]);
      assert StronglyConnected(g, r, p[i]);
    }
    assert WalkWithin(g, p, w);
  }
}
