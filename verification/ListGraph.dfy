/** The directed graph of MP2/MapAdjacentListDirectedGraph.java: a map from
    every node to the set of the edges leaving it. */
module ListGraph {
  import opened Common
  import opened Graphs

  /** The edges held in the lists of the nodes of `keys`. */
  function Union<L(==)>(adj: map<L, set<Edge<L>>>, keys: set<L>): set<Edge<L>>
  {
    set k, e | k in keys && k in adj && e in adj[k] :: e
  }

  /** Every list holds only edges leaving its own node. */
  ghost predicate Sourced<L>(adj: map<L, set<Edge<L>>>)
  {
    forall k, e :: k in adj && e in adj[k] ==> e.node1 == k
  }

  /** Adding the list of a further node adds its edges, none of which was
      already counted. */
  lemma UnionAdd<L>(adj: map<L, set<Edge<L>>>, done: set<L>, k: L)
    requires Sourced(adj) && k in adj && k !in done
    ensures Union(adj, done + {k}) == Union(adj, done) + adj[k]
    ensures Union(adj, done) !! adj[k]
  {
    forall e | e in Union(adj, done) ensures e !in adj[k] {
      var k' :| k' in done && k' in adj && e in adj[k'];
      assert e.node1 == k' != k;
    }
  }

  /** The nodes of `nodes` whose label is `name`: a node is its label. */
  function Labelled<L(==)>(nodes: set<L>, name: L): Option<L>
  {
    if name in nodes then Some(name) else None
  }

  /** The targets of the edges of `edges`: the collecting loop of
      getAdjacentNodesOf. */
  method Targets<L(==)>(edges: set<Edge<L>>) returns (acc: set<L>)
    ensures acc == set e | e in edges :: e.node2
  {
    var todo := edges;
    acc := {};
    ghost var done := {};
    while todo != {}
      invariant done + todo == edges && done !! todo
      invariant acc == set e | e in done :: e.node2
      decreases |todo|
    {
      var e :| e in todo;
      acc := acc + {e.node2};
      assert (set x | x in done + {e} :: x.node2) == acc;
      MoveOne(done, todo, e);
      done, todo := done + {e}, todo - {e};
    }
  }

  /** The sources of the edges of `edges`: the collecting loop of
      getPredecessorNodesOf. */
  method Sources<L(==)>(edges: set<Edge<L>>) returns (acc: set<L>)
    ensures acc == set e | e in edges :: e.node1
  {
    var todo := edges;
    acc := {};
    ghost var done := {};
    while todo != {}
      invariant done + todo == edges && done !! todo
      invariant acc == set e | e in done :: e.node1
      decreases |todo|
    {
      var e :| e in todo;
      acc := acc + {e.node1};
      assert (set x | x in done + {e} :: x.node1) == acc;
      MoveOne(done, todo, e);
      done, todo := done + {e}, todo - {e};
    }
  }

  /** The edges of `all` entering `u`: the filtering loop of getIngoingEdgesOf. */
  method Entering<L(==)>(all: set<Edge<L>>, u: L) returns (acc: set<Edge<L>>)
    ensures acc == set e | e in all && e.node2 == u
  {
    var todo := all;
    acc := {};
    ghost var done := {};
    while todo != {}
      invariant done + todo == all && done !! todo
      invariant acc == set e | e in done && e.node2 == u
      decreases |todo|
    {
      var e :| e in todo;
      if e.node2 == u {
        acc := acc + {e};
      }
      assert (set x | x in done + {e} && x.node2 == u) == acc;
      MoveOne(done, todo, e);
      done, todo := done + {e}, todo - {e};
    }
  }

  class MapAdjacentListDirectedGraph<L(==)> {
    /** The edges leaving every node. */
    var adjacentLists: map<L, set<Edge<L>>>

    /** Every list holds directed edges leaving its node towards a node of
        the graph, no two of them equal. */
    ghost predicate Valid()
      reads this
    {
      && Sourced(adjacentLists)
      && (forall k, e :: k in adjacentLists && e in adjacentLists[k] ==>
            e.node2 in adjacentLists && e.directed)
      && (forall k, e, f ::
            k in adjacentLists && e in adjacentLists[k] && f in adjacentLists[k] && Same(e, f) ==> e == f)
    }

    /** The graph the map represents. */
    function View(): Graph<L>
      reads this
    {
      Graph(adjacentLists.Keys, Union(adjacentLists, adjacentLists.Keys), true)
    }

    /** The map describes a well-formed directed graph. */
    lemma ViewWellFormed()
      requires Valid()
      ensures WellFormed(View()) && View().directed
    {
      forall e | e in View().edges
        ensures e.node1 in View().nodes && e.node2 in View().nodes && e.directed
      {
        var k :| k in adjacentLists && e in adjacentLists[k];
      }
      forall e, f | e in View().edges && f in View().edges && Same(e, f)
        ensures e == f
      {
        var k :| k in adjacentLists && e in adjacentLists[k];
        var k' :| k' in adjacentLists && f in adjacentLists[k'];
      }
    }

    /** The list of a node holds exactly its edges. */
    lemma ListIsIncident(u: L)
      requires Valid() && u in adjacentLists
      ensures adjacentLists[u] == Incident(View(), u)
    {
      forall e | e in Incident(View(), u) ensures e in adjacentLists[u] {
        var k :| k in adjacentLists && e in adjacentLists[k];
      }
    }

    constructor ()
      ensures Valid() && View() == Graph({}, {}, true)
    {
      adjacentLists := map[];
    }

    method NodeCount() returns (n: nat)
      ensures n == |View().nodes|
    {
      n := |adjacentLists.Keys|;
    }

    /** Sums the sizes of the lists; as they hold disjoint sets of edges,
        the sum is the number of edges. */
    method EdgeCount() returns (n: nat)
      requires Valid()
      ensures n == |View().edges|
    {
      n := 0;
      var todo := adjacentLists.Keys;
      ghost var done := {};
      while todo != {}
        invariant done + todo == adjacentLists.Keys && done !! todo
        invariant n == |Union(adjacentLists, done)|
        decreases |todo|
      {
        var k :| k in todo;
        UnionAdd(adjacentLists, done, k);
        n := n + |adjacentLists[k]|;
        MoveOne(done, todo, k);
        done, todo := done + {k}, todo - {k};
      }
    }

    method Clear()
      modifies this
      ensures Valid() && View() == Graph({}, {}, true)
    {
      adjacentLists := map[];
    }

    method IsDirected() returns (r: bool)
      ensures r == View().directed
    {
      r := true;
    }

    /** Adds a node with an empty list. */
    method AddNode(node: Option<L>) returns (r: Result<bool>)
      requires Valid()
      modifies this
      ensures Valid()
      ensures node.None? ==> r == Err(NullPointer) && unchanged(this)
      ensures node.Some? && node.value in old(View().nodes) ==> r == Ok(false) && unchanged(this)
      ensures node.Some? && node.value !in old(View().nodes) ==>
        && r == Ok(true)
        && adjacentLists == old(adjacentLists)[node.value := {}]
        && View() == Graph(old(View().nodes) + {node.value}, old(View().edges), true)
    {
      if node.None? {
        return Err(NullPointer);
      }
      var u := node.value;
      if u in adjacentLists {
        return Ok(false);
      }
      ghost var old_adj := adjacentLists;
      adjacentLists := adjacentLists[u := {}];
      forall e | e in Union(adjacentLists, adjacentLists.Keys)
        ensures e in Union(old_adj, old_adj.Keys)
      {
        var k :| k in adjacentLists && e in adjacentLists[k];
        assert k != u && k in old_adj;
      }
      forall e | e in Union(old_adj, old_adj.Keys)
        ensures e in Union(adjacentLists, adjacentLists.Keys)
      {
        var k :| k in old_adj && e in old_adj[k];
        assert k != u && k in adjacentLists;
      }
      r := Ok(true);
    }

    method RemoveNode(node: Option<L>) returns (r: Result<bool>)
      ensures node.None? ==> r == Err(NullPointer)
      ensures node.Some? ==> r == Err(UnsupportedOperation)
    {
      if node.None? {
        return Err(NullPointer);
      }
      r := Err(UnsupportedOperation);
    }

    /** Looks the node up among the keys, one by one. */
    method ContainsNode(node: Option<L>) returns (r: Result<bool>)
      ensures node.None? ==> r == Err(NullPointer)
      ensures node.Some? ==> r == Ok(node.value in View().nodes)
    {
      if node.None? {
        return Err(NullPointer);
      }
      var todo := adjacentLists.Keys;
      while todo != {}
        invariant todo <= adjacentLists.Keys
        invariant node.value !in adjacentLists.Keys - todo
        decreases |todo|
      {
        var n :| n in todo;
        if n == node.value {
          return Ok(true);
        }
        todo := todo - {n};
      }
      r := Ok(false);
    }

    /** The node carrying a label, found by scanning the keys. */
    method GetNodeOf(name: Option<L>) returns (r: Result<Option<L>>)
      ensures name.None? ==> r == Err(NullPointer)
      ensures name.Some? ==> r == Ok(Labelled(View().nodes, name.value))
    {
      if name.None? {
        return Err(NullPointer);
      }
      var todo := adjacentLists.Keys;
      while todo != {}
        invariant todo <= adjacentLists.Keys
        invariant name.value !in adjacentLists.Keys - todo
        decreases |todo|
      {
        var n :| n in todo;
        if n == name.value {
          return Ok(Some(n));
        }
        todo := todo - {n};
      }
      r := Ok(None);
    }

    method GetNodeIndexOf(name: Option<L>) returns (r: Result<nat>)
      ensures name.None? ==> r == Err(NullPointer)
      ensures name.Some? ==> r == Err(UnsupportedOperation)
    {
      if name.None? {
        return Err(NullPointer);
      }
      r := Err(UnsupportedOperation);
    }

    method GetNodeAtIndex(i: int) returns (r: Result<L>)
      ensures r == Err(UnsupportedOperation)
    {
      r := Err(UnsupportedOperation);
    }

    /** The targets of the edges leaving a present node. */
    method GetAdjacentNodesOf(node: Option<L>) returns (r: Result<set<L>>)
      requires Valid()
      ensures node.None? ==> r == Err(NullPointer)
      ensures node.Some? && node.value !in View().nodes ==> r == Err(IllegalArgument)
      ensures node.Some? && node.value in View().nodes ==> r == Ok(Adjacent(View(), node.value))
    {
      var present := ContainsNode(node);
      if present.Err? {
        return Err(present.error);
      }
      if !present.value {
        return Err(IllegalArgument);
      }
      var u := node.value;
      ListIsIncident(u);
      var acc := Targets(adjacentLists[u]);
      forall v | v in Adjacent(View(), u) ensures v in acc {
        var e :| e in Incident(View(), u) && Opposite(e, u) == v;
        assert e in adjacentLists[u] && e.node1 == u;
      }
      forall v | v in acc ensures v in Adjacent(View(), u) {
        var e :| e in adjacentLists[u] && e.node2 == v;
        assert e in Incident(View(), u) && e.node1 == u;
      }
      assert acc == Adjacent(View(), u);
      r := Ok(acc);
    }

    /** The sources of the edges entering a present node. */
    method GetPredecessorNodesOf(node: Option<L>) returns (r: Result<set<L>>)
      requires Valid()
      ensures node.None? ==> r == Err(NullPointer)
      ensures node.Some? && node.value !in View().nodes ==> r == Err(IllegalArgument)
      ensures node.Some? && node.value in View().nodes ==> r == Ok(Predecessors(View(), node.value))
    {
      var directed := IsDirected();
      if !directed {
        return Err(UnsupportedOperation);
      }
      var present := ContainsNode(node);
      if present.Err? {
        return Err(present.error);
      }
      if !present.value {
        return Err(IllegalArgument);
      }
      var ingoing := GetIngoingEdgesOf(node);
      var acc := Sources(ingoing.value);
      r := Ok(acc);
    }

    /** The union of all the lists. */
    method GetEdges() returns (r: set<Edge<L>>)
      ensures r == View().edges
    {
      r := {};
      var todo := adjacentLists.Keys;
      ghost var done := {};
      while todo != {}
        invariant done + todo == adjacentLists.Keys && done !! todo
        invariant r == Union(adjacentLists, done)
        decreases |todo|
      {
        var n :| n in todo;
        r := r + adjacentLists[n];
        assert Union(adjacentLists, done + {n}) == r;
        MoveOne(done, todo, n);
        done, todo := done + {n}, todo - {n};
      }
    }

    /** Whether the list of the edge's source holds an equal edge. */
    method ContainsEdge(edge: Option<Edge<L>>) returns (r: Result<bool>)
      requires Valid()
      ensures edge.None? ==> r == Err(NullPointer)
      ensures edge.Some? && (edge.value.node1 !in View().nodes || edge.value.node2 !in View().nodes) ==>
        r == Err(IllegalArgument)
      ensures edge.Some? && edge.value.node1 in View().nodes && edge.value.node2 in View().nodes ==>
        r == Ok(HasEdge(View(), edge.value))
    {
      if edge.None? {
        return Err(NullPointer);
      }
      var e := edge.value;
      var has1 := ContainsNode(Some(e.node1));
      var has2 := ContainsNode(Some(e.node2));
      if !has1.value || !has2.value {
        return Err(IllegalArgument);
      }
      var list := adjacentLists[e.node1];
      r := Ok(exists f :: f in list && Same(f, e));
      if HasEdge(View(), e) {
        var f :| f in View().edges && Same(f, e);
        var k :| k in adjacentLists && f in adjacentLists[k];
      }
    }

    /** Adds a directed edge between two present nodes to its source's list. */
    method AddEdge(edge: Option<Edge<L>>) returns (r: Result<bool>)
      requires Valid()
      modifies this
      ensures Valid()
      ensures edge.None? ==> r == Err(NullPointer) && unchanged(this)
      ensures edge.Some? && (edge.value.node1 !in old(View().nodes) || edge.value.node2 !in old(View().nodes)) ==>
        r == Err(IllegalArgument) && unchanged(this)
      ensures edge.Some? && edge.value.node1 in old(View().nodes) && edge.value.node2 in old(View().nodes) ==>
        if !edge.value.directed then r == Err(IllegalArgument) && unchanged(this)
        else if HasEdge(old(View()), edge.value) then r == Ok(false) && unchanged(this)
        else
          && r == Ok(true)
          && adjacentLists == old(adjacentLists)[edge.value.node1 := old(adjacentLists)[edge.value.node1] + {edge.value}]
          && View() == Graph(old(View().nodes), old(View().edges) + {edge.value}, true)
    {
      if edge.None? {
        return Err(NullPointer);
      }
      var e := edge.value;
      var has1 := ContainsNode(Some(e.node1));
      var has2 := ContainsNode(Some(e.node2));
      if !has1.value || !has2.value {
        return Err(IllegalArgument);
      }
      if !e.directed {
        return Err(IllegalArgument);
      }
      var has := ContainsEdge(edge);
      if has.value {
        return Ok(false);
      }
      ghost var old_adj := adjacentLists;
      forall f | f in adjacentLists[e.node1] ensures !Same(e, f) && !Same(f, e) {
        assert f in View().edges;
      }
      adjacentLists := adjacentLists[e.node1 := adjacentLists[e.node1] + {e}];
      forall f | f in Union(adjacentLists, adjacentLists.Keys)
        ensures f in Union(old_adj, old_adj.Keys) + {e}
      {
        var k :| k in adjacentLists && f in adjacentLists[k];
        if f != e {
          assert f in old_adj[k];
        }
      }
      forall f | f in Union(old_adj, old_adj.Keys) + {e}
        ensures f in Union(adjacentLists, adjacentLists.Keys)
      {
        if f != e {
          var k :| k in old_adj && f in old_adj[k];
          assert f in adjacentLists[k];
        } else {
          assert f in adjacentLists[e.node1];
        }
      }
      r := Ok(true);
    }

    method RemoveEdge(edge: Option<Edge<L>>) returns (r: Result<bool>)
      ensures r == Err(UnsupportedOperation)
    {
      r := Err(UnsupportedOperation);
    }

    /** The list of a present node: the edges leaving it. */
    method GetEdgesOf(node: Option<L>) returns (r: Result<set<Edge<L>>>)
      requires Valid()
      ensures node.None? ==> r == Err(NullPointer)
      ensures node.Some? && node.value !in View().nodes ==> r == Err(IllegalArgument)
      ensures node.Some? && node.value in View().nodes ==> r == Ok(Incident(View(), node.value))
    {
      var present := ContainsNode(node);
      if present.Err? {
        return Err(present.error);
      }
      if !present.value {
        return Err(IllegalArgument);
      }
      ListIsIncident(node.value);
      r := Ok(adjacentLists[node.value]);
    }

    /** The edges entering a present node, found by scanning all edges. */
    method GetIngoingEdgesOf(node: Option<L>) returns (r: Result<set<Edge<L>>>)
      ensures node.None? ==> r == Err(NullPointer)
      ensures node.Some? && node.value !in View().nodes ==> r == Err(IllegalArgument)
      ensures node.Some? && node.value in View().nodes ==> r == Ok(Ingoing(View(), node.value))
    {
      var directed := IsDirected();
      if !directed {
        return Err(UnsupportedOperation);
      }
      if node.None? {
        return Err(NullPointer);
      }
      var present := ContainsNode(node);
      if !present.value {
        return Err(IllegalArgument);
      }
      var u := node.value;
      var all := GetEdges();
      var acc := Entering(all, u);
      r := Ok(acc);
    }
  }
}
