/** The undirected graph of MP2/AdjacencyMatrixUndirectedGraph.java: nodes
    are numbered 0, 1, ... in insertion order by the map `nodesIndex`, and a
    square matrix that grows by one row and one column per node holds, at
    [i][j] and [j][i], the edge joining nodes i and j, or nothing. */
module MatrixGraph {
  import opened Common
  import opened Graphs

  type Row<L> = seq<Option<Edge<L>>>

  /** The edges stored in the first `j` cells of a row. */
  function RowEdges<L(==)>(row: Row<L>, j: nat): set<Edge<L>>
    requires j <= |row|
  {
    set c | 0 <= c < j && row[c].Some? :: row[c].value
  }

  /** The edges stored in the first `k` rows of a matrix. */
  function RowsEdges<L(==)>(m: seq<Row<L>>, k: nat): set<Edge<L>>
    requires k <= |m|
  {
    set i, c | 0 <= i < k && 0 <= c < |m[i]| && m[i][c].Some? :: m[i][c].value
  }

  /** The edges stored anywhere in a matrix. */
  function Cells<L(==)>(m: seq<Row<L>>): set<Edge<L>>
  {
    RowsEdges(m, |m|)
  }

  /** Whether `e` is an undirected edge joining `a` and `b`. */
  predicate Joins<L(==)>(e: Edge<L>, a: L, b: L)
  {
    !e.directed && ((e.node1 == a && e.node2 == b) || (e.node1 == b && e.node2 == a))
  }

  /** The index map, the matrix and the insertion order agree: `order[i]`
      is the node of index i, the matrix is square with one row per node, it
      is symmetric, and a cell [i][j] holds only an undirected edge joining
      nodes i and j. */
  ghost predicate Coherent<L>(index: map<L, nat>, m: seq<Row<L>>, order: seq<L>)
  {
    && (forall i :: 0 <= i < |order| ==> order[i] in index && index[order[i]] == i)
    && (forall u :: u in index ==> index[u] < |order| && order[index[u]] == u)
    && |m| == |order|
    && (forall i :: 0 <= i < |m| ==> |m[i]| == |order|)
    && (forall i, j :: 0 <= i < |order| && 0 <= j < |order| ==> m[i][j] == m[j][i])
    && (forall i, j :: 0 <= i < |order| && 0 <= j < |order| && m[i][j].Some? ==>
          Joins(m[i][j].value, order[i], order[j]))
  }

  /** `m` is `m0` grown to an n-by-n matrix: the cells of `m0` are kept and
      every other cell is empty. */
  ghost predicate Grown<L>(m0: seq<Row<L>>, m: seq<Row<L>>, n: nat)
  {
    && |m| == n && |m0| <= n
    && (forall i :: 0 <= i < n ==> |m[i]| == n)
    && (forall i, j :: 0 <= i < n && 0 <= j < n ==>
          m[i][j] == if i < |m0| && j < |m0[i]| then m0[i][j] else None)
  }

  /** The padding loop of addNode: every row is extended with empty cells
      until it is as long as there are nodes. */
  method PadRows<L>(m0: seq<Row<L>>, n: nat) returns (m: seq<Row<L>>)
    requires |m0| == n && forall r :: 0 <= r < n ==> |m0[r]| <= n
    ensures Grown(m0, m, n)
  {
    m := m0;
    for k := 0 to |m|
      invariant |m| == n
      invariant forall r :: 0 <= r < k ==> |m[r]| == n
      invariant forall r, c :: 0 <= r < k && 0 <= c < n ==>
        m[r][c] == if c < |m0[r]| then m0[r][c] else None
      invariant forall r :: k <= r < n ==> m[r] == m0[r]
    {
      var row := m[k];
      for i := 0 to n
        invariant |row| == if |m0[k]| + i <= n then |m0[k]| + i else n
        invariant forall c :: 0 <= c < |row| ==> row[c] == if c < |m0[k]| then m0[k][c] else None
      {
        if |row| != n {
          row := row + [None];
        }
      }
      m := m[k := row];
    }
  }

  /** Growing a matrix by an empty row and column stores no new edge. */
  lemma GrownCells<L>(m0: seq<Row<L>>, m: seq<Row<L>>)
    requires forall i :: 0 <= i < |m0| ==> |m0[i]| == |m0|
    requires Grown(m0, m, |m0| + 1)
    ensures Cells(m) == Cells(m0)
  {
    forall e | e in Cells(m) ensures e in Cells(m0) {
      var i, j :| 0 <= i < |m| && 0 <= j < |m[i]| && m[i][j].Some? && m[i][j].value == e;
      assert i < |m0| && j < |m0| && m0[i][j] == Some(e);
    }
    forall e | e in Cells(m0) ensures e in Cells(m) {
      var i, j :| 0 <= i < |m0| && 0 <= j < |m0[i]| && m0[i][j].Some? && m0[i][j].value == e;
      assert m[i][j] == Some(e);
    }
  }

  /** Growing the matrix for a new node `u` keeps the representation coherent. */
  lemma GrowCoherent<L>(index: map<L, nat>, m0: seq<Row<L>>, order: seq<L>, u: L, m: seq<Row<L>>)
    requires Coherent(index, m0, order) && u !in index
    requires Grown(m0, m, |m0| + 1)
    ensures Coherent(index[u := |order|], m, order + [u])
  {
    var index', order' := index[u := |order|], order + [u];
    forall i | 0 <= i < |order'|
      ensures order'[i] in index' && index'[order'[i]] == i
    {
      if i < |order| {
        assert order'[i] == order[i] && order[i] in index;
      }
    }
    forall i, j | 0 <= i < |order'| && 0 <= j < |order'| && m[i][j].Some?
      ensures Joins(m[i][j].value, order'[i], order'[j])
    {
      assert i < |m0| && j < |m0| && m0[i][j] == m[i][j];
      assert order'[i] == order[i] && order'[j] == order[j];
    }
  }

  /** `m` is `m0` with `e` stored at [i1][i2] and [i2][i1]. */
  ghost predicate Stored<L>(m0: seq<Row<L>>, m: seq<Row<L>>, i1: nat, i2: nat, e: Edge<L>)
  {
    && |m| == |m0|
    && (forall r :: 0 <= r < |m| ==> |m[r]| == |m0[r]|)
    && (forall r, c :: 0 <= r < |m| && 0 <= c < |m[r]| ==>
          m[r][c] == if (r == i1 && c == i2) || (r == i2 && c == i1) then Some(e) else m0[r][c])
  }

  /** The storing loop of addEdge: row i1 gets the edge at column i2 and row
      i2 at column i1. */
  method StoreEdge<L>(m0: seq<Row<L>>, i1: nat, i2: nat, e: Edge<L>) returns (m: seq<Row<L>>)
    requires i1 < |m0| && i2 < |m0| && i2 < |m0[i1]| && i1 < |m0[i2]|
    ensures Stored(m0, m, i1, i2, e)
  {
    m := m0;
    for i := 0 to |m|
      invariant |m| == |m0|
      invariant forall r :: 0 <= r < |m| ==> |m[r]| == |m0[r]|
      invariant forall r, c :: 0 <= r < |m| && 0 <= c < |m[r]| ==>
        m[r][c] == if r < i && ((r == i1 && c == i2) || (r == i2 && c == i1)) then Some(e) else m0[r][c]
    {
      if i1 == i {
        m := m[i := m[i][i2 := Some(e)]];
      }
      if i2 == i && i1 != i {
        m := m[i := m[i][i1 := Some(e)]];
      }
    }
  }

  /** Storing an edge joining nodes i1 and i2 keeps the representation coherent. */
  lemma StoreCoherent<L>(index: map<L, nat>, m0: seq<Row<L>>, order: seq<L>,
                         m: seq<Row<L>>, i1: nat, i2: nat, e: Edge<L>)
    requires Coherent(index, m0, order) && i1 < |order| && i2 < |order|
    requires Joins(e, order[i1], order[i2])
    requires Stored(m0, m, i1, i2, e)
    ensures Coherent(index, m, order)
  {
  }

  /** Storing `e` in the two empty cells [i1][i2] and [i2][i1] adds exactly `e`. */
  lemma StoredCells<L>(m0: seq<Row<L>>, m: seq<Row<L>>, i1: nat, i2: nat, e: Edge<L>)
    requires i1 < |m0| && i2 < |m0| && i2 < |m0[i1]| && i1 < |m0[i2]|
    requires m0[i1][i2] == None && m0[i2][i1] == None
    requires Stored(m0, m, i1, i2, e)
    ensures Cells(m) == Cells(m0) + {e}
  {
    forall f | f in Cells(m) ensures f in Cells(m0) + {e} {
      var i, j :| 0 <= i < |m| && 0 <= j < |m[i]| && m[i][j].Some? && m[i][j].value == f;
      if m0[i][j] == Some(f) {
        assert f in Cells(m0);
      }
    }
    forall f | f in Cells(m0) ensures f in Cells(m) {
      var i, j :| 0 <= i < |m0| && 0 <= j < |m0[i]| && m0[i][j].Some? && m0[i][j].value == f;
      assert m[i][j] == Some(f);
    }
    assert m[i1][i2] == Some(e);
  }

  /** The edges of `all` touching `u`: the filtering loop of getEdgesOf. */
  method Touching<L(==)>(all: set<Edge<L>>, u: L) returns (acc: set<Edge<L>>)
    ensures acc == set e | e in all && (e.node1 == u || e.node2 == u)
  {
    var todo := all;
    acc := {};
    ghost var done := {};
    while todo != {}
      invariant done + todo == all && done !! todo
      invariant acc == set e | e in done && (e.node1 == u || e.node2 == u)
      decreases |todo|
    {
      var e :| e in todo;
      if e.node1 == u || e.node2 == u {
        acc := acc + {e};
      }
      assert (set x | x in done + {e} && (x.node1 == u || x.node2 == u)) == acc;
      MoveOne(done, todo, e);
      done, todo := done + {e}, todo - {e};
    }
  }

  /** The other endpoints of the edges of `edges` as seen from `u`: the
      collecting loop of getAdjacentNodesOf. */
  method OtherEnds<L(==)>(edges: set<Edge<L>>, u: L) returns (acc: set<L>)
    ensures acc == set e | e in edges :: Opposite(e, u)
  {
    var todo := edges;
    acc := {};
    ghost var done := {};
    while todo != {}
      invariant done + todo == edges && done !! todo
      invariant acc == set e | e in done :: Opposite(e, u)
      decreases |todo|
    {
      var e :| e in todo;
      if e.node1 == u {
        acc := acc + {e.node2};
      } else {
        acc := acc + {e.node1};
      }
      assert (set x | x in done + {e} :: Opposite(x, u)) == acc;
      MoveOne(done, todo, e);
      done, todo := done + {e}, todo - {e};
    }
  }

  class AdjacencyMatrixUndirectedGraph<L(==)> {
    /** The index of every node. */
    var nodesIndex: map<L, nat>
    /** The adjacency matrix, row by row. */
    var matrix: seq<Row<L>>
    /** The nodes in insertion order: the node of index i. */
    ghost var order: seq<L>

    ghost predicate Valid()
      reads this
    {
      Coherent(nodesIndex, matrix, order)
    }

    /** The graph the matrix represents. */
    function View(): Graph<L>
      reads this
    {
      Graph(nodesIndex.Keys, Cells(matrix), false)
    }

    /** A cell holding a stored edge. */
    lemma EdgeCell(e: Edge<L>) returns (i: nat, j: nat)
      requires Valid() && e in Cells(matrix)
      ensures i < |matrix| && j < |matrix| && matrix[i][j] == Some(e)
      ensures Joins(e, order[i], order[j])
    {
      i, j :| 0 <= i < |matrix| && 0 <= j < |matrix[i]| && matrix[i][j].Some? && matrix[i][j].value == e;
    }

    /** The matrix describes a well-formed undirected graph, in which at most
        one edge joins two nodes. */
    lemma ViewWellFormed()
      requires Valid()
      ensures WellFormed(View()) && !View().directed
    {
      forall e | e in View().edges
        ensures e.node1 in View().nodes && e.node2 in View().nodes && !e.directed
      {
        var i, j := EdgeCell(e);
      }
      forall e, f | e in View().edges && f in View().edges && Same(e, f)
        ensures e == f
      {
        var i, j := EdgeCell(e);
        var k, l := EdgeCell(f);
        if order[i] == order[k] {
          assert nodesIndex[order[i]] == i && nodesIndex[order[k]] == k;
          assert order[j] == order[l];
          assert nodesIndex[order[j]] == j && nodesIndex[order[l]] == l;
        } else {
          assert order[i] == order[l] && order[j] == order[k];
          assert nodesIndex[order[i]] == i && nodesIndex[order[l]] == l;
          assert nodesIndex[order[j]] == j && nodesIndex[order[k]] == k;
        }
      }
    }

    /** A pair of nodes that no stored edge joins has empty cells. */
    lemma FreeCell(i1: nat, i2: nat, e: Edge<L>)
      requires Valid() && i1 < |matrix| && i2 < |matrix| && !e.directed
      requires e.node1 == order[i1] && e.node2 == order[i2]
      requires !HasEdge(View(), e)
      ensures matrix[i1][i2] == None && matrix[i2][i1] == None
    {
      if matrix[i1][i2].Some? {
        var f := matrix[i1][i2].value;
        assert f in View().edges && Same(f, e);
        assert false;
      }
    }

    /** The node count is the size of the node map and the side of the matrix. */
    lemma NodeCountIsSide()
      requires Valid()
      ensures |nodesIndex| == |matrix|
    {
      assert nodesIndex.Keys == set u | u in order;
      DistinctElements(order);
    }

    constructor ()
      ensures Valid() && View() == Graph({}, {}, false)
    {
      nodesIndex, matrix, order := map[], [], [];
    }

    method NodeCount() returns (n: nat)
      requires Valid()
      ensures n == |View().nodes| && n == |matrix|
    {
      NodeCountIsSide();
      n := |nodesIndex|;
    }

    /** Counts the distinct edges met scanning the matrix row by row. */
    method EdgeCount() returns (n: nat)
      requires Valid()
      ensures n == |View().edges|
    {
      var seen: seq<Edge<L>> := [];
      for k := 0 to |matrix|
        invariant (set x | x in seen) == RowsEdges(matrix, k)
        invariant forall a, b :: 0 <= a < b < |seen| ==> seen[a] != seen[b]
      {
        var row := matrix[k];
        for j := 0 to |row|
          invariant (set x | x in seen) == RowsEdges(matrix, k) + RowEdges(row, j)
          invariant forall a, b :: 0 <= a < b < |seen| ==> seen[a] != seen[b]
        {
          var ed := row[j];
          if ed.Some? && ed.value !in seen {
            assert (set x | x in seen + [ed.value]) == (set x | x in seen) + {ed.value};
            seen := seen + [ed.value];
          }
        }
      }
      DistinctElements(seen);
      n := |seen|;
    }

    method Clear()
      modifies this
      ensures Valid() && View() == Graph({}, {}, false)
    {
      nodesIndex, matrix, order := map[], [], [];
    }

    method IsDirected() returns (r: bool)
      ensures r == View().directed
    {
      r := false;
    }

    /** Adds a node with the next index, growing the matrix by an empty row
        and an empty column. */
    method AddNode(node: Option<L>) returns (r: Result<bool>)
      requires Valid()
      modifies this
      ensures Valid()
      ensures node.None? ==> r == Err(NullPointer) && unchanged(this)
      ensures node.Some? && node.value in old(nodesIndex) ==> r == Ok(false) && unchanged(this)
      ensures node.Some? && node.value !in old(nodesIndex) ==>
        && r == Ok(true)
        && nodesIndex == old(nodesIndex)[node.value := old(|matrix|)]
        && Grown(old(matrix), matrix, old(|matrix|) + 1)
        && View() == Graph(old(View().nodes) + {node.value}, old(View().edges), false)
    {
      if node.None? {
        return Err(NullPointer);
      }
      var u := node.value;
      if u in nodesIndex {
        return Ok(false);
      }
      NodeCountIsSide();
      var n := |nodesIndex|;
      var m := PadRows(matrix + [[]], n + 1);
      GrownCells(matrix, m);
      GrowCoherent(nodesIndex, matrix, order, u, m);
      nodesIndex, matrix, order := nodesIndex[u := n], m, order + [u];
      r := Ok(true);
    }

    method ContainsNode(node: Option<L>) returns (r: Result<bool>)
      requires Valid()
      ensures node.None? ==> r == Err(NullPointer)
      ensures node.Some? ==> r == Ok(node.value in View().nodes)
    {
      if node.None? {
        return Err(NullPointer);
      }
      r := Ok(node.value in nodesIndex);
    }

    method GetNodeOf(name: Option<L>) returns (r: Result<Option<L>>)
      requires Valid()
      ensures name.None? ==> r == Err(NullPointer)
      ensures name.Some? && name.value in View().nodes ==> r == Ok(Some(name.value))
      ensures name.Some? && name.value !in View().nodes ==> r == Ok(None)
    {
      if name.None? {
        return Err(NullPointer);
      }
      if name.value in nodesIndex {
        r := Ok(name);
      } else {
        r := Ok(None);
      }
    }

    /** The insertion index of a node. */
    method GetNodeIndexOf(name: Option<L>) returns (r: Result<nat>)
      requires Valid()
      ensures name.None? ==> r == Err(NullPointer)
      ensures name.Some? && name.value !in View().nodes ==> r == Err(IllegalArgument)
      ensures name.Some? && name.value in View().nodes ==>
        r.Ok? && r.value < |matrix| && order[r.value] == name.value
    {
      if name.None? {
        return Err(NullPointer);
      }
      if name.value !in nodesIndex {
        return Err(IllegalArgument);
      }
      r := Ok(nodesIndex[name.value]);
    }

    /** The node of a given index. */
    method GetNodeAtIndex(i: int) returns (r: Result<L>)
      requires Valid()
      ensures (i < 0 || i >= |matrix|) ==> r == Err(IndexOutOfBounds)
      ensures 0 <= i < |matrix| ==>
        r == Ok(order[i]) && r.value in View().nodes && nodesIndex[r.value] == i
    {
      if 0 <= i < |matrix| {
        assert nodesIndex[order[i]] == i;
      }
      if (i > |matrix| - 1 && i < 0) || i !in nodesIndex.Values {
        return Err(IndexOutOfBounds);
      }
      var u :| u in nodesIndex && nodesIndex[u] == i;
      r := Ok(u);
    }

    /** Looking a node's index up and then the node at that index gives the
        node back. */
    method IndexRoundTrip(name: L) returns (found: Result<Option<L>>, back: Result<L>)
      requires Valid() && name in View().nodes
      ensures found == Ok(Some(name)) && back == Ok(name)
    {
      var index := GetNodeIndexOf(Some(name));
      back := GetNodeAtIndex(index.value);
      found := GetNodeOf(Some(name));
    }

    /** The edges of the matrix: every non-empty cell, row by row. */
    method GetEdges() returns (r: set<Edge<L>>)
      requires Valid()
      ensures r == View().edges
    {
      r := {};
      for k := 0 to |matrix|
        invariant r == RowsEdges(matrix, k)
      {
        var row := matrix[k];
        for j := 0 to |row|
          invariant r == RowsEdges(matrix, k) + RowEdges(row, j)
        {
          if row[j].Some? {
            r := r + {row[j].value};
          }
        }
      }
    }

    method ContainsEdge(edge: Option<Edge<L>>) returns (r: Result<bool>)
      requires Valid()
      ensures edge.None? ==> r == Err(NullPointer)
      ensures edge.Some? && (edge.value.node1 !in View().nodes || edge.value.node2 !in View().nodes) ==>
        r == Err(IllegalArgument)
      ensures edge.Some? && edge.value.node1 in View().nodes && edge.value.node2 in View().nodes ==>
        r == Ok(HasEdge(View(), edge.value))
    {
      if edge.None? {
        return Err(NullPointer);
      }
      var e := edge.value;
      if e.node1 !in nodesIndex || e.node2 !in nodesIndex {
        return Err(IllegalArgument);
      }
      var all := GetEdges();
      r := Ok(exists f :: f in all && Same(f, e));
    }

    /** Stores an undirected edge between two present nodes in both of its cells. */
    method AddEdge(edge: Option<Edge<L>>) returns (r: Result<bool>)
      requires Valid()
      modifies this
      ensures Valid()
      ensures edge.None? ==> r == Err(NullPointer) && unchanged(this)
      ensures edge.Some? && (edge.value.node1 !in old(View().nodes) || edge.value.node2 !in old(View().nodes)) ==>
        r == Err(IllegalArgument) && unchanged(this)
      ensures edge.Some? && edge.value.node1 in old(View().nodes) && edge.value.node2 in old(View().nodes) ==>
        if edge.value.directed then r == Err(IllegalArgument) && unchanged(this)
        else if HasEdge(old(View()), edge.value) then r == Ok(false) && unchanged(this)
        else
          && r == Ok(true)
          && nodesIndex == old(nodesIndex)
          && Stored(old(matrix), matrix, nodesIndex[edge.value.node1], nodesIndex[edge.value.node2], edge.value)
          && View() == Graph(old(View().nodes), old(View().edges) + {edge.value}, false)
    {
      if edge.None? {
        return Err(NullPointer);
      }
      var e := edge.value;
      if e.node1 !in nodesIndex || e.node2 !in nodesIndex {
        return Err(IllegalArgument);
      }
      if e.directed {
        return Err(IllegalArgument);
      }
      var has := ContainsEdge(edge);
      if has.value {
        return Ok(false);
      }
      var i1, i2 := nodesIndex[e.node1], nodesIndex[e.node2];
      assert order[i1] == e.node1 && order[i2] == e.node2;
      FreeCell(i1, i2, e);
      var m := StoreEdge(matrix, i1, i2, e);
      StoreCoherent(nodesIndex, matrix, order, m, i1, i2, e);
      StoredCells(matrix, m, i1, i2, e);
      matrix := m;
      r := Ok(true);
    }

    /** The edges touching a present node. */
    method GetEdgesOf(node: Option<L>) returns (r: Result<set<Edge<L>>>)
      requires Valid()
      ensures node.None? ==> r == Err(NullPointer)
      ensures node.Some? && node.value !in View().nodes ==> r == Err(IllegalArgument)
      ensures node.Some? && node.value in View().nodes ==> r == Ok(Incident(View(), node.value))
    {
      if node.None? {
        return Err(NullPointer);
      }
      var u := node.value;
      if u !in nodesIndex {
        return Err(IllegalArgument);
      }
      var total := EdgeCount();
      var acc := {};
      var count := 0;
      while count != total
        invariant count <= total
        invariant acc == if count == 0 then {} else Incident(View(), u)
        decreases total - count
      {
        var all := GetEdges();
        var part := Touching(all, u);
        assert part == Incident(View(), u);
        acc := acc + part;
        count := count + 1;
      }
      if total == 0 {
        assert View().edges == {};
        assert Incident(View(), u) == {};
      }
      r := Ok(acc);
    }

    /** The nodes joined to a present node by an edge. */
    method GetAdjacentNodesOf(node: Option<L>) returns (r: Result<set<L>>)
      requires Valid()
      ensures node.None? ==> r == Err(NullPointer)
      ensures node.Some? && node.value !in View().nodes ==> r == Err(IllegalArgument)
      ensures node.Some? && node.value in View().nodes ==> r == Ok(Adjacent(View(), node.value))
    {
      if node.None? {
        return Err(NullPointer);
      }
      var u := node.value;
      if u !in nodesIndex {
        return Err(IllegalArgument);
      }
      var edges := GetEdgesOf(node);
      var adjacent := OtherEnds(edges.value, u);
      r := Ok(adjacent);
    }

    method RemoveNode(node: Option<L>) returns (r: Result<bool>)
      ensures r == Err(UnsupportedOperation)
    {
      r := Err(UnsupportedOperation);
    }

    method RemoveEdge(edge: Option<Edge<L>>) returns (r: Result<bool>)
      ensures r == Err(UnsupportedOperation)
    {
      r := Err(UnsupportedOperation);
    }

    method GetPredecessorNodesOf(node: Option<L>) returns (r: Result<set<L>>)
      ensures r == Err(UnsupportedOperation)
    {
      r := Err(UnsupportedOperation);
    }

    method GetIngoingEdgesOf(node: Option<L>) returns (r: Result<set<Edge<L>>>)
      ensures r == Err(UnsupportedOperation)
    {
      r := Err(UnsupportedOperation);
    }
  }
}
