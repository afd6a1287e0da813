/** The strongly connected components of a directed graph, found the way
    Kosaraju's algorithm finds them: a depth-first search of the graph
    stacks the nodes in the order they finish, then depth-first searches of
    the transpose, started from the nodes as they come off the stack, each
    collect one component. The source keeps the colours in the node objects,
    which the graph and its transpose share; here they are one map from node
    to colour that the searches take and return, and the stack is a
    sequence whose last element is its top. */
module Scc {
  import opened Common
  import opened Graphs
  import opened ListGraph

  /** The nodes of `g` that `col` paints white. */
  ghost function Whites<L>(g: Graph<L>, col: map<L, Color>): set<L>
  {
    set x | x in g.nodes && x in col && col[x] == White
  }

  /** The nodes of `nodes` that `col` paints grey. */
  ghost function Greys<L>(nodes: set<L>, col: map<L, Color>): set<L>
  {
    set x | x in nodes && x in col && col[x] == Grey
  }

  /** `col` is `col0` with the nodes of `v`, all of them white nodes of `g`,
      painted `c`, and every other node of `g` as it was. */
  ghost predicate Repainted<L>(g: Graph<L>, col0: map<L, Color>, col: map<L, Color>, v: set<L>, c: Color)
  {
    && g.nodes <= col0.Keys && g.nodes <= col.Keys
    && (forall x :: x in v ==> x in g.nodes && col0[x] == White && col[x] == c)
    && (forall x :: x in g.nodes && x !in v ==> col[x] == col0[x])
  }

  /** No successor of a node of `v` is white under `col`. */
  ghost predicate Closed<L>(g: Graph<L>, v: set<L>, col: map<L, Color>)
  {
    forall x, y :: x in v && y in Adjacent(g, x) ==> y in col && col[y] != White
  }

  /** A search from `u` that started under the colours `col0` and paints
      with `c`, partway through the successors of `u`: `v` holds `u` and the
      nodes visited so far, each reachable from `u` through nodes white under
      `col0`; the successors of the visited nodes other than `u`, and the
      successors of `u` in `done`, are no longer white. */
  ghost predicate Searching<L(!new)>(g: Graph<L>, u: L, col0: map<L, Color>, col: map<L, Color>,
                                     v: set<L>, done: set<L>, c: Color)
  {
    && Repainted(g, col0, col, v, c)
    && u in v
    && Closed(g, v - {u}, col)
    && (forall y :: y in done ==> y in g.nodes && col[y] != White)
    && (forall x :: x in v ==> ReachableWithin(g, Whites(g, col0), u, x))
  }

  /** Painting white nodes with another colour leaves exactly the other
      white nodes white. */
  lemma WhitesRepainted<L>(g: Graph<L>, col0: map<L, Color>, col: map<L, Color>, v: set<L>, c: Color)
    requires Repainted(g, col0, col, v, c) && c != White
    ensures Whites(g, col) == Whites(g, col0) - v
  {
  }

  /** Painting white nodes grey adds exactly them to the grey nodes. */
  lemma GreysRepainted<L>(g: Graph<L>, col0: map<L, Color>, col: map<L, Color>, v: set<L>)
    requires Repainted(g, col0, col, v, Grey)
    ensures Greys(g.nodes, col) == Greys(g.nodes, col0) + v && Greys(g.nodes, col0) !! v
  {
  }

  /** Repainting twice is repainting the union, and the second repainting
      only touches nodes the first left white. */
  lemma RepaintTwice<L>(g: Graph<L>, col0: map<L, Color>, col1: map<L, Color>, col2: map<L, Color>,
                        v1: set<L>, v2: set<L>, c: Color)
    requires Repainted(g, col0, col1, v1, c) && Repainted(g, col1, col2, v2, c) && c != White
    ensures Repainted(g, col0, col2, v1 + v2, c) && v1 !! v2
  {
  }

  /** A repainting keeps every node that was not white as it was, so it
      keeps a set closed. */
  lemma ClosedKept<L>(g: Graph<L>, s: set<L>, col1: map<L, Color>, col2: map<L, Color>, v: set<L>, c: Color)
    requires WellFormed(g) && Closed(g, s, col1) && Repainted(g, col1, col2, v, c)
    ensures Closed(g, s, col2)
  {
    forall x, y | x in s && y in Adjacent(g, x) ensures y in col2 && col2[y] != White {
      AdjacentWithin(g, x);
    }
  }

  /** A search starts by painting its root. */
  lemma SearchStart<L(!new)>(g: Graph<L>, u: L, col0: map<L, Color>, c: Color)
    requires u in g.nodes && g.nodes <= col0.Keys && col0[u] == White
    ensures Searching(g, u, col0, col0[u := c], {u}, {}, c)
  {
    ReachableSelf(g, Whites(g, col0), u);
  }

  /** While a search is under way fewer nodes are white than when it
      started: at least its root has been painted. */
  lemma SearchShrinks<L(!new)>(g: Graph<L>, u: L, col0: map<L, Color>, col: map<L, Color>,
                               v: set<L>, done: set<L>, c: Color)
    requires Searching(g, u, col0, col, v, done, c) && c != White
    ensures Whites(g, col) < Whites(g, col0)
  {
    WhitesRepainted(g, col0, col, v, c);
    assert u in Whites(g, col0) - Whites(g, col);
  }

  /** A successor of the root that is not white needs no visit. */
  lemma SearchSkip<L(!new)>(g: Graph<L>, u: L, col0: map<L, Color>, col: map<L, Color>,
                            v: set<L>, done: set<L>, c: Color, n: L)
    requires Searching(g, u, col0, col, v, done, c) && n in g.nodes && col[n] != White
    ensures Searching(g, u, col0, col, v, done + {n}, c)
  {
  }

  /** A white successor `n` of the root, once searched from, has been
      painted together with every node it reaches through white nodes: the
      search from the root has visited them too. */
  lemma SearchChild<L(!new)>(g: Graph<L>, u: L, col0: map<L, Color>, col: map<L, Color>,
                             v: set<L>, done: set<L>, c: Color, n: L, col': map<L, Color>, v': set<L>)
    requires WellFormed(g) && c != White
    requires Searching(g, u, col0, col, v, done, c)
    requires n in Adjacent(g, u) && n in g.nodes && col[n] == White
    requires Repainted(g, col, col', v', c) && Closed(g, v', col')
    requires forall x :: x in v' <==> ReachableWithin(g, Whites(g, col), n, x)
    ensures Searching(g, u, col0, col', v + v', done + {n}, c) && v !! v'
  {
    var w0, w1 := Whites(g, col0), Whites(g, col);
    RepaintTwice(g, col0, col, col', v, v', c);
    ClosedKept(g, v - {u}, col, col', v', c);
    assert (v + v') - {u} == (v - {u}) + v' by {
      assert u !in v';
    }
    WhitesRepainted(g, col0, col, v, c);
    forall x | x in v + v' ensures ReachableWithin(g, w0, u, x) {
      if x in v' {
        ReachableMonotonic(g, w1, w0, n, x);
        ReachableStep(g, w0, u, n, x);
      }
    }
    AdjacentWithin(g, u);
    ReachableSelf(g, w1, n);
  }

  /** Once every successor of the root has been seen, the visited nodes are
      closed, and so they are exactly the nodes the root reaches through the
      nodes that were white when the search started. */
  lemma SearchDone<L(!new)>(g: Graph<L>, u: L, col0: map<L, Color>, col: map<L, Color>,
                            v: set<L>, done: set<L>, c: Color)
    requires WellFormed(g) && c != White
    requires Searching(g, u, col0, col, v, done, c) && Adjacent(g, u) <= done
    ensures Closed(g, v, col)
    ensures forall x :: x in v <==> ReachableWithin(g, Whites(g, col0), u, x)
  {
    var w0 := Whites(g, col0);
    assert v <= w0;
    forall x, y | x in v && y in Adjacent(g, x) && y in w0 ensures y in v {
      assert col[y] != White;
    }
    forall x | ReachableWithin(g, w0, u, x) ensures x in v {
      ClosedHoldsReachable(g, w0, v, u, x);
    }
  }

  /** The nodes of `s` are painted nodes of `g`, and so are all their
      successors: their searches have finished. */
  ghost predicate Settled<L>(g: Graph<L>, s: seq<L>, col: map<L, Color>)
  {
    && (forall x :: x in s ==> x in g.nodes && x in col && col[x] != White)
    && (forall x, y :: x in s && y in Adjacent(g, x) ==> y in col && col[y] != White)
  }

  /** Every painted node of `g` that is not on `s`, a node whose search is
      still under way, reaches `u`. */
  ghost predicate Pending<L(!new)>(g: Graph<L>, col: map<L, Color>, s: seq<L>, u: L)
  {
    forall a :: a in g.nodes && a in col && col[a] != White && a !in s ==> Reaches(g, a, u)
  }

  /** The state in which fillOrder is called from `u`: the stacked nodes are
      finished and the searches under way lead to `u`. */
  ghost predicate Context<L(!new)>(g: Graph<L>, col: map<L, Color>, s: seq<L>, u: L)
  {
    Settled(g, s, col) && Pending(g, col, s, u)
  }

  /** Some node of `s` at position `j` or above is strongly connected to
      `x`. */
  ghost predicate Later<L(!new)>(g: Graph<L>, s: seq<L>, x: L, j: nat)
  {
    exists k :: j <= k < |s| && StronglyConnected(g, x, s[k])
  }

  /** The node at position `i` of `s` reaches the node at position `j`. */
  ghost predicate ReachesAt<L(!new)>(g: Graph<L>, s: seq<L>, i: int, j: int)
  {
    0 <= i < |s| && 0 <= j < |s| && Reaches(g, s[i], s[j])
  }

  /** The finishing order Kosaraju's algorithm relies on: when a node
      reaches a node stacked above it, its own component has a node stacked
      at least that high. */
  ghost predicate FinishOrdered<L(!new)>(g: Graph<L>, s: seq<L>)
  {
    forall i, j :: 0 <= i < j < |s| && ReachesAt(g, s, i, j) ==> Later(g, s, s[i], j)
  }

  /** The finishing order of a search from `u` before `u` itself is stacked:
      a node that breaks it reaches `u`. */
  ghost predicate OrderedBelow<L(!new)>(g: Graph<L>, s: seq<L>, u: L)
  {
    forall i, j :: 0 <= i < j < |s| && ReachesAt(g, s, i, j) ==> Reaches(g, s[i], u) || Later(g, s, s[i], j)
  }

  /** Appending to a sequence keeps what lies above a position. */
  lemma LaterAppend<L(!new)>(g: Graph<L>, s: seq<L>, t: seq<L>, x: L, j: nat)
    requires Later(g, s, x, j)
    ensures Later(g, s + t, x, j)
  {
    var k :| j <= k < |s| && StronglyConnected(g, x, s[k]);
    assert (s + t)[k] == s[k];
  }

  /** Prepending to a sequence moves what lies above a position up. */
  lemma LaterShift<L(!new)>(g: Graph<L>, s: seq<L>, t: seq<L>, x: L, j: nat)
    requires Later(g, t, x, j)
    ensures Later(g, s + t, x, |s| + j)
  {
    var k :| j <= k < |t| && StronglyConnected(g, x, t[k]);
    assert (s + t)[|s| + k] == t[k];
  }

  /** Stacking the nodes of a finished child search keeps the order below
      `u`, provided what is stacked before reaches the child's nodes only
      through `u`. */
  lemma OrderedGrow<L(!new)>(g: Graph<L>, s: seq<L>, seg: seq<L>, u: L)
    requires OrderedBelow(g, s, u) && FinishOrdered(g, seg)
    requires forall x, y :: x in s && y in seg && Reaches(g, x, y) ==> Reaches(g, x, u)
    ensures OrderedBelow(g, s + seg, u)
  {
    var ss := s + seg;
    forall i, j | 0 <= i < j < |ss| && ReachesAt(g, ss, i, j)
      ensures Reaches(g, ss[i], u) || Later(g, ss, ss[i], j)
    {
      if j < |s| {
        assert ss[i] == s[i] && ss[j] == s[j] && ReachesAt(g, s, i, j);
        if !Reaches(g, s[i], u) {
          LaterAppend(g, s, seg, s[i], j);
        }
      } else if i >= |s| {
        assert ss[i] == seg[i - |s|] && ss[j] == seg[j - |s|] && ReachesAt(g, seg, i - |s|, j - |s|);
        LaterShift(g, s, seg, seg[i - |s|], j - |s|);
      } else {
        assert ss[i] == s[i] && ss[j] == seg[j - |s|];
        assert s[i] in s && seg[j - |s|] in seg;
      }
    }
  }

  /** Stacking the nodes of a finished search after nodes that reach none
      of them keeps the finishing order. */
  lemma OrderedAppend<L(!new)>(g: Graph<L>, s: seq<L>, seg: seq<L>)
    requires FinishOrdered(g, s) && FinishOrdered(g, seg)
    requires forall i, j :: 0 <= i < |s| <= j < |s + seg| ==> !Reaches(g, (s + seg)[i], (s + seg)[j])
    ensures FinishOrdered(g, s + seg)
  {
    var ss := s + seg;
    forall i, j | 0 <= i < j < |ss| && ReachesAt(g, ss, i, j) ensures Later(g, ss, ss[i], j) {
      if j < |s| {
        assert ss[i] == s[i] && ss[j] == s[j] && ReachesAt(g, s, i, j);
        LaterAppend(g, s, seg, s[i], j);
      } else if i >= |s| {
        assert ss[i] == seg[i - |s|] && ss[j] == seg[j - |s|] && ReachesAt(g, seg, i - |s|, j - |s|);
        LaterShift(g, s, seg, seg[i - |s|], j - |s|);
      } else {
        assert false;
      }
    }
  }

  /** Stacking `u`, which reaches every node stacked by its search, completes
      the finishing order. */
  lemma OrderedClose<L(!new)>(g: Graph<L>, seg: seq<L>, u: L)
    requires OrderedBelow(g, seg, u)
    requires forall x :: x in seg ==> Reaches(g, u, x)
    ensures FinishOrdered(g, seg + [u])
  {
    var ss := seg + [u];
    forall i, j | 0 <= i < j < |ss| && ReachesAt(g, ss, i, j) ensures Later(g, ss, ss[i], j) {
      assert ss[i] == seg[i] && seg[i] in seg && ss[|seg|] == u;
      if j == |seg| {
        assert StronglyConnected(g, ss[i], ss[|seg|]);
      } else {
        assert ss[j] == seg[j] && ReachesAt(g, seg, i, j);
        if Reaches(g, seg[i], u) {
          assert StronglyConnected(g, ss[i], ss[|seg|]);
        } else {
          LaterAppend(g, seg, [u], seg[i], j);
        }
      }
    }
  }

  /** A walk from a finished node to a white node leaves the finished nodes
      at a painted node. */
  lemma Escape<L(!new)>(g: Graph<L>, s: seq<L>, col: map<L, Color>, x: L, y: L) returns (a: L)
    requires WellFormed(g) && Settled(g, s, col) && x in s
    requires Reaches(g, x, y) && y in col && col[y] == White
    ensures a in g.nodes && a in col && col[a] != White && a !in s && Reaches(g, x, a)
  {
    var p :| |p| > 0 && p[0] == x && p[|p| - 1] == y && WalkWithin(g, p, g.nodes);
    assert y !in s;
    var i := 0;
    while p[i + 1] in s
      invariant 0 <= i < |p| - 1 && p[i] in s
      decreases |p| - i
    {
      i := i + 1;
    }
    a := p[i + 1];
    assert a in Adjacent(g, p[i]);
    var prefix := p[..i + 2];
    assert WalkWithin(g, prefix, g.nodes) && prefix[|prefix| - 1] == a;
  }

  /** A finished node reaches no white node when every painted node is
      finished. */
  lemma NoEscape<L(!new)>(g: Graph<L>, s: seq<L>, col: map<L, Color>, x: L, y: L)
    requires WellFormed(g) && Settled(g, s, col) && x in s && y in col && col[y] == White
    requires forall a :: a in g.nodes && a in col && col[a] != White ==> a in s
    ensures !Reaches(g, x, y)
  {
    if Reaches(g, x, y) {
      var a := Escape(g, s, col, x, y);
      assert false;
    }
  }

  /** A white successor `n` of `u` is searched from in the state fillOrder
      expects: the searches under way, `u`'s among them, lead to `n`. */
  lemma PendingChild<L(!new)>(g: Graph<L>, u: L, col0: map<L, Color>, col: map<L, Color>,
                              stack0: seq<L>, seg: seq<L>, v: set<L>, n: L)
    requires WellFormed(g) && u in g.nodes && n in Adjacent(g, u)
    requires Pending(g, col0, stack0, u) && Repainted(g, col0, col, v, Black)
    requires forall x :: x in v <==> x == u || x in seg
    ensures Pending(g, col, stack0 + seg, n)
  {
    AdjacentWithin(g, u);
    ReachableSelf(g, g.nodes, n);
    ReachableStep(g, g.nodes, u, n, n);
    forall a | a in g.nodes && a in col && col[a] != White && a !in stack0 + seg ensures Reaches(g, a, n) {
      if a !in v {
        assert col0[a] == col[a] && a !in stack0;
        ReachableTrans(g, g.nodes, a, u, n);
      }
    }
  }

  /** The nodes stacked by the search from `u` before a child search reach
      the child's nodes, which were white, only through `u`. */
  lemma CrossReach<L(!new)>(g: Graph<L>, u: L, col0: map<L, Color>, col: map<L, Color>,
                            stack0: seq<L>, seg: seq<L>, v: set<L>, seg': seq<L>)
    requires WellFormed(g) && u in g.nodes
    requires Settled(g, stack0 + seg, col) && Pending(g, col0, stack0, u)
    requires Repainted(g, col0, col, v, Black) && forall x :: x in v <==> x == u || x in seg
    requires forall y :: y in seg' ==> y in col && col[y] == White
    ensures forall x, y :: x in seg && y in seg' && Reaches(g, x, y) ==> Reaches(g, x, u)
  {
    forall x, y | x in seg && y in seg' && Reaches(g, x, y) ensures Reaches(g, x, u) {
      var a := Escape(g, stack0 + seg, col, x, y);
      if a !in v {
        assert col0[a] == col[a] && a !in stack0;
        ReachableTrans(g, g.nodes, x, a, u);
      } else {
        assert a == u;
      }
    }
  }

  /** A child search of the search from `u` keeps its stacked nodes below
      `u` in order. */
  lemma OrderChild<L(!new)>(g: Graph<L>, u: L, col0: map<L, Color>, col: map<L, Color>, col': map<L, Color>,
                            stack0: seq<L>, seg: seq<L>, v: set<L>, seg': seq<L>, v': set<L>)
    requires WellFormed(g) && u in g.nodes
    requires Pending(g, col0, stack0, u) && Repainted(g, col0, col, v, Black)
    requires forall x :: x in v <==> x == u || x in seg
    requires Settled(g, stack0 + seg, col) && OrderedBelow(g, seg, u) && FinishOrdered(g, seg')
    requires Repainted(g, col, col', v', Black) && forall x :: x in seg' <==> x in v'
    ensures OrderedBelow(g, seg + seg', u)
  {
    CrossReach(g, u, col0, col, stack0, seg, v, seg');
    OrderedGrow(g, seg, seg', u);
  }

  /** Stacking `u` once its successors are painted keeps the stack finished
      and completes the finishing order of its search. */
  lemma OrderFinish<L(!new)>(g: Graph<L>, u: L, col0: map<L, Color>, col: map<L, Color>,
                             s: seq<L>, seg: seq<L>, v: set<L>)
    requires Settled(g, s, col) && Closed(g, v, col) && u in v && u in g.nodes && u in col && col[u] != White
    requires OrderedBelow(g, seg, u) && forall x :: x in seg ==> x in v
    requires forall x :: x in v ==> ReachableWithin(g, Whites(g, col0), u, x)
    ensures Settled(g, s + [u], col) && FinishOrdered(g, seg + [u])
  {
    forall x | x in seg ensures Reaches(g, u, x) {
      ReachableMonotonic(g, Whites(g, col0), g.nodes, u, x);
    }
    OrderedClose(g, seg, u);
  }

  /** A sequence built by appending splits back into its two parts. */
  lemma SplitAt<L>(a: seq<L>, b: seq<L>, s: seq<L>)
    requires s == a + b
    ensures s[..|a|] == a && s[|a|..] == b
  {
  }

  /** The state of the loop of fillOrder from `u`, started under `col0`
      with the stack `stack0`: `seg` has been pushed, each of its nodes
      once, and `v` holds `u` and the nodes of `seg`; when the call was made
      in the expected state, the stack is finished and `seg` is in order
      below `u`. */
  ghost predicate Filling<L(!new)>(g: Graph<L>, u: L, col0: map<L, Color>, stack0: seq<L>,
                                   col: map<L, Color>, stack: seq<L>, seg: seq<L>, v: set<L>, done: set<L>)
  {
    && stack == stack0 + seg && Distinct(seg) && u !in seg
    && (forall x :: x in v <==> x == u || x in seg)
    && Searching(g, u, col0, col, v, done, Black)
    && (Context(g, col0, stack0, u) ==> Settled(g, stack, col) && OrderedBelow(g, seg, u))
  }

  /** fillOrder starts with nothing pushed and only `u` painted. */
  lemma FillStart<L(!new)>(g: Graph<L>, u: L, col0: map<L, Color>, stack0: seq<L>)
    requires u in g.nodes && g.nodes <= col0.Keys && col0[u] == White
    ensures Filling(g, u, col0, stack0, col0[u := Black], stack0, [], {u}, {})
  {
    SearchStart(g, u, col0, Black);
    if Context(g, col0, stack0, u) {
      forall x, y | x in stack0 && y in Adjacent(g, x) ensures y in col0[u := Black] && col0[u := Black][y] != White {
      }
    }
  }

  /** A successor that is not white is passed over. */
  lemma FillSkip<L(!new)>(g: Graph<L>, u: L, col0: map<L, Color>, stack0: seq<L>,
                          col: map<L, Color>, stack: seq<L>, seg: seq<L>, v: set<L>, done: set<L>, n: L)
    requires Filling(g, u, col0, stack0, col, stack, seg, v, done) && n in g.nodes && col[n] != White
    ensures Filling(g, u, col0, stack0, col, stack, seg, v, done + {n})
  {
    SearchSkip(g, u, col0, col, v, done, Black, n);
  }

  /** A white successor `n`, once fillOrder has run from it, has pushed its
      nodes after those already pushed. */
  lemma FillChild<L(!new)>(g: Graph<L>, u: L, col0: map<L, Color>, stack0: seq<L>,
                           col: map<L, Color>, stack: seq<L>, seg: seq<L>, v: set<L>, done: set<L>, n: L,
                           col': map<L, Color>, stack': seq<L>, seg': seq<L>, v': set<L>)
    requires WellFormed(g) && u in g.nodes
    requires Filling(g, u, col0, stack0, col, stack, seg, v, done)
    requires n in Adjacent(g, u) && n in g.nodes && col[n] == White
    requires stack' == stack + seg' && Distinct(seg') && forall x :: x in seg' <==> x in v'
    requires Repainted(g, col, col', v', Black) && Closed(g, v', col')
    requires forall x :: x in v' <==> ReachableWithin(g, Whites(g, col), n, x)
    requires Context(g, col, stack, n) ==> Settled(g, stack', col') && FinishOrdered(g, seg')
    ensures Filling(g, u, col0, stack0, col', stack', seg + seg', v + v', done + {n})
  {
    SearchChild(g, u, col0, col, v, done, Black, n, col', v');
    DistinctAppend(seg, seg');
    AppendAssoc(stack0, seg, seg');
    if Context(g, col0, stack0, u) {
      PendingChild(g, u, col0, col, stack0, seg, v, n);
      OrderChild(g, u, col0, col, col', stack0, seg, v, seg', v');
    }
  }

  /** Once every successor has been seen, pushing `u` ends the search: the
      pushed nodes are exactly those `u` reaches through white nodes, `u`
      last, and in the expected state they are in finishing order. */
  lemma FillEnd<L(!new)>(g: Graph<L>, u: L, col0: map<L, Color>, stack0: seq<L>,
                         col: map<L, Color>, stack: seq<L>, seg: seq<L>, v: set<L>, done: set<L>)
    requires WellFormed(g) && u in g.nodes
    requires Filling(g, u, col0, stack0, col, stack, seg, v, done) && Adjacent(g, u) <= done
    ensures stack + [u] == stack0 + (seg + [u]) && Distinct(seg + [u])
    ensures (stack + [u])[..|stack0|] == stack0 && (stack + [u])[|stack0|..] == seg + [u]
    ensures forall x :: x in seg + [u] <==> x in v
    ensures Closed(g, v, col) && forall x :: x in v <==> ReachableWithin(g, Whites(g, col0), u, x)
    ensures Context(g, col0, stack0, u) ==> Settled(g, stack + [u], col) && FinishOrdered(g, seg + [u])
  {
    SearchDone(g, u, col0, col, v, done, Black);
    if Context(g, col0, stack0, u) {
      OrderFinish(g, u, col0, col, stack, seg, v);
    }
    DistinctAppend(seg, [u]);
    AppendAssoc(stack0, seg, [u]);
    SplitAt(stack0, seg + [u], stack + [u]);
  }

  /** fillOrder: paints `u` black, searches from each of its successors that
      is still white, then pushes `u`. The nodes pushed are exactly those `u`
      reaches through white nodes, each once, `u` last: `u` finishes after
      every node it reaches. Called with the stacked nodes finished and the
      searches under way leading to `u`, it keeps the stack finished and
      pushes its nodes in finishing order. */
  method FillOrder<L(==, !new)>(g: Graph<L>, u: L, col0: map<L, Color>, stack0: seq<L>)
    returns (col: map<L, Color>, stack: seq<L>, ghost seg: seq<L>, ghost v: set<L>)
    requires WellFormed(g) && u in g.nodes && g.nodes <= col0.Keys && col0[u] == White
    ensures |stack0| < |stack| && stack[..|stack0|] == stack0 && stack[|stack| - 1] == u
    ensures forall x :: x in stack[|stack0|..] <==> ReachableWithin(g, Whites(g, col0), u, x)
    ensures stack == stack0 + seg && Distinct(seg) && |seg| > 0 && seg[|seg| - 1] == u
    ensures forall x :: x in seg <==> x in v
    ensures Repainted(g, col0, col, v, Black) && Closed(g, v, col)
    ensures forall x :: x in v <==> ReachableWithin(g, Whites(g, col0), u, x)
    ensures Context(g, col0, stack0, u) ==> Settled(g, stack, col) && FinishOrdered(g, seg)
    decreases Whites(g, col0)
  {
    col := col0[u := Black];
    stack, seg, v := stack0, [], {u};
    FillStart(g, u, col0, stack0);
    AdjacentWithin(g, u);
    var adjacent := Adjacent(g, u);
    var todo := adjacent;
    ghost var done: set<L> := {};
    while todo != {}
      invariant done + todo == adjacent && done !! todo
      invariant Filling(g, u, col0, stack0, col, stack, seg, v, done)
      decreases |todo|
    {
      var n :| n in todo;
      if col[n] == White {
        SearchShrinks(g, u, col0, col, v, done, Black);
        var col', stack', seg', v' := FillOrder(g, n, col, stack);
        FillChild(g, u, col0, stack0, col, stack, seg, v, done, n, col', stack', seg', v');
        col, stack, seg, v := col', stack', seg + seg', v + v';
      } else {
        FillSkip(g, u, col0, stack0, col, stack, seg, v, done, n);
      }
      MoveOne(done, todo, n);
      done, todo := done + {n}, todo - {n};
    }
    FillEnd(g, u, col0, stack0, col, stack, seg, v, done);
    stack, seg := stack + [u], seg + [u];
  }

  /** What a search from a child adds to the component keeps the component,
      with the root added, equal to what the search has visited. */
  lemma CompGrows<L>(comp0: set<L>, comp: set<L>, comp': set<L>, u: L, v: set<L>, v': set<L>)
    requires comp + {u} == comp0 + v && comp' == comp + v'
    ensures comp' + {u} == comp0 + (v + v')
  {
  }

  /** DFSvisit: paints `u` grey, searches from each of its successors that
      is still white, then adds `u` to the component. The nodes added are
      exactly those `u` reaches through white nodes. */
  method DFSVisit<L(==, !new)>(g: Graph<L>, u: L, col0: map<L, Color>, comp0: set<L>)
    returns (col: map<L, Color>, comp: set<L>, ghost v: set<L>)
    requires WellFormed(g) && u in g.nodes && g.nodes <= col0.Keys && col0[u] == White
    ensures forall x :: x in comp <==> x in comp0 || ReachableWithin(g, Whites(g, col0), u, x)
    ensures comp == comp0 + v
    ensures Repainted(g, col0, col, v, Grey) && Closed(g, v, col)
    ensures forall x :: x in v <==> ReachableWithin(g, Whites(g, col0), u, x)
    decreases Whites(g, col0)
  {
    col := col0[u := Grey];
    comp, v := comp0, {u};
    SearchStart(g, u, col0, Grey);
    AdjacentWithin(g, u);
    var adjacent := Adjacent(g, u);
    var todo := adjacent;
    ghost var done: set<L> := {};
    while todo != {}
      invariant done + todo == adjacent && done !! todo
      invariant comp + {u} == comp0 + v
      invariant Searching(g, u, col0, col, v, done, Grey)
      decreases |todo|
    {
      var n :| n in todo;
      if col[n] == White {
        SearchShrinks(g, u, col0, col, v, done, Grey);
        var col', comp', v' := DFSVisit(g, n, col, comp);
        SearchChild(g, u, col0, col, v, done, Grey, n, col', v');
        CompGrows(comp0, comp, comp', u, v, v');
        col, comp, v := col', comp', v + v';
      } else {
        SearchSkip(g, u, col0, col, v, done, Grey, n);
      }
      MoveOne(done, todo, n);
      done, todo := done + {n}, todo - {n};
    }
    SearchDone(g, u, col0, col, v, done, Grey);
    comp := comp + {u};
  }

  /** Some member of `parts` holds `x`. */
  ghost predicate InSome<L>(parts: set<set<L>>, x: L)
  {
    exists p :: p in parts && x in p
  }

  /** `parts` splits `s`: its members are non-empty, pairwise disjoint
      subsets of `s` that together cover it. */
  ghost predicate Partition<L>(parts: set<set<L>>, s: set<L>)
  {
    && {} !in parts
    && (forall p :: p in parts ==> p <= s)
    && (forall p, q :: p in parts && q in parts && p != q ==> p !! q)
    && (forall x {:trigger InSome(parts, x)} :: x in s ==> InSome(parts, x))
  }

  /** A non-empty set disjoint from a split set extends the split. */
  lemma PartitionAdd<L>(parts: set<set<L>>, s: set<L>, p: set<L>)
    requires Partition(parts, s) && p != {} && p !! s
    ensures Partition(parts + {p}, s + p)
  {
    var parts' := parts + {p};
    forall q | q in parts' ensures q <= s + p {
    }
    forall q1, q2 | q1 in parts' && q2 in parts' && q1 != q2 ensures q1 !! q2 {
      if q1 == p {
        assert q2 in parts && q2 <= s;
      } else if q2 == p {
        assert q1 in parts && q1 <= s;
      }
    }
    forall x | x in s + p ensures InSome(parts', x) {
      if x in s {
        assert InSome(parts, x);
        var q :| q in parts && x in q;
        assert q in parts';
      } else {
        assert p in parts';
      }
    }
  }

  /** The strongly connected component of `r`: the nodes of `g` that `r`
      reaches and that reach `r`. */
  ghost function ComponentOf<L(!new)>(g: Graph<L>, r: L): set<L>
  {
    set x | x in g.nodes && StronglyConnected(g, r, x)
  }

  /** `p` is the strongly connected component of one of the nodes of `g`. */
  ghost predicate IsComponent<L(!new)>(g: Graph<L>, p: set<L>)
  {
    exists r :: r in g.nodes && p == ComponentOf(g, r)
  }

  /** A component holds exactly the nodes strongly connected to any one of
      its members: they are mutually reachable, and no other node is
      reachable both ways. */
  lemma ComponentExact<L(!new)>(g: Graph<L>, p: set<L>, x: L, y: L)
    requires IsComponent(g, p) && x in p && y in g.nodes
    ensures y in p <==> StronglyConnected(g, x, y)
  {
    var r :| r in g.nodes && p == ComponentOf(g, r);
    assert StronglyConnected(g, r, x);
    if y in p {
      ReachableTrans(g, g.nodes, x, r, y);
      ReachableTrans(g, g.nodes, y, r, x);
    }
    if StronglyConnected(g, x, y) {
      ReachableTrans(g, g.nodes, r, x, y);
      ReachableTrans(g, g.nodes, y, x, r);
    }
  }

  /** The loops that paint every node of `nodes` white. */
  method Whiten<L(==)>(nodes: set<L>, col0: map<L, Color>) returns (col: map<L, Color>)
    ensures nodes <= col.Keys && forall x :: x in nodes ==> col[x] == White
  {
    col := col0;
    var todo := nodes;
    while todo != {}
      invariant todo <= nodes
      invariant forall x :: x in nodes && x !in todo ==> x in col && col[x] == White
      decreases |todo|
    {
      var n :| n in todo;
      col := col[n := White];
      RemoveShrinks(todo, n);
      todo := todo - {n};
    }
  }

  /** A search from a white node, started when every painted node is
      finished, stacks its nodes after the others in finishing order: the
      nodes stacked before reach none of them. */
  lemma FinishAppend<L(!new)>(g: Graph<L>, s: seq<L>, col: map<L, Color>, seg: seq<L>)
    requires WellFormed(g) && Settled(g, s, col) && FinishOrdered(g, s) && FinishOrdered(g, seg)
    requires forall a :: a in g.nodes && a in col && col[a] != White ==> a in s
    requires forall y :: y in seg ==> y in col && col[y] == White
    ensures FinishOrdered(g, s + seg)
  {
    var ss := s + seg;
    forall i, j | 0 <= i < |s| <= j < |ss| ensures !Reaches(g, ss[i], ss[j]) {
      assert ss[i] == s[i] && s[i] in s && ss[j] == seg[j - |s|] && seg[j - |s|] in seg;
      NoEscape(g, s, col, s[i], ss[j]);
    }
    OrderedAppend(g, s, seg);
  }

  /** initDFS: paints every node white, then runs fillOrder from each node
      still white. Afterwards no node is white, every node is on the stack
      exactly once, and the stack is in finishing order. */
  method InitDFS<L(==, !new)>(g: Graph<L>) returns (col: map<L, Color>, stack: seq<L>)
    requires WellFormed(g)
    ensures g.nodes <= col.Keys && forall x :: x in g.nodes ==> col[x] == Black
    ensures Distinct(stack) && forall x :: x in stack <==> x in g.nodes
    ensures FinishOrdered(g, stack)
  {
    col := Whiten(g.nodes, map[]);
    stack := [];
    var todo := g.nodes;
    ghost var done: set<L> := {};
    while todo != {}
      invariant done + todo == g.nodes && done !! todo
      invariant g.nodes <= col.Keys
      invariant forall x :: x in g.nodes ==> (col[x] == White || col[x] == Black)
      invariant forall x :: x in g.nodes ==> (col[x] == Black <==> x in stack)
      invariant Distinct(stack)
      invariant Settled(g, stack, col) && FinishOrdered(g, stack)
      invariant forall x :: x in done ==> col[x] == Black
      decreases |todo|
    {
      var n :| n in todo;
      if col[n] == White {
        assert Context(g, col, stack, n);
        var col', stack', seg, v := FillOrder(g, n, col, stack);
        ReachableSelf(g, Whites(g, col), n);
        DistinctAppend(stack, seg);
        FinishAppend(g, stack, col, seg);
        col, stack := col', stack';
      }
      MoveOne(done, todo, n);
      done, todo := done + {n}, todo - {n};
    }
  }

  /** getTranspose: a new adjacency-list graph holding the nodes of `g` and,
      for each edge of `g`, an unweighted directed edge the other way. */
  method GetTranspose<L(==)>(g: Graph<L>) returns (t: MapAdjacentListDirectedGraph<L>)
    requires WellFormed(g) && g.directed
    ensures fresh(t) && t.Valid() && t.View() == Transpose(g)
  {
    t := new MapAdjacentListDirectedGraph<L>();
    AddNodes(t, g.nodes);
    AddReversedEdges(t, g);
  }

  /** The first loop of getTranspose: adds every node to an empty graph. */
  method AddNodes<L(==)>(t: MapAdjacentListDirectedGraph<L>, nodes: set<L>)
    requires t.Valid() && t.View() == Graph({}, {}, true)
    modifies t
    ensures t.Valid() && t.View() == Graph(nodes, {}, true)
  {
    var todo := nodes;
    ghost var done: set<L> := {};
    while todo != {}
      invariant done + todo == nodes && done !! todo
      invariant t.Valid() && t.View() == Graph(done, {}, true)
      decreases |todo|
    {
      var n :| n in todo;
      var added := t.AddNode(Some(n));
      MoveOne(done, todo, n);
      done, todo := done + {n}, todo - {n};
    }
  }

  /** The second loop of getTranspose: adds the reversal of every edge of
      `g` to a graph holding the nodes of `g`. */
  method AddReversedEdges<L(==)>(t: MapAdjacentListDirectedGraph<L>, g: Graph<L>)
    requires WellFormed(g) && g.directed
    requires t.Valid() && t.View() == Graph(g.nodes, {}, true)
    modifies t
    ensures t.Valid() && t.View() == Transpose(g)
  {
    var edges := g.edges;
    ghost var reversed: set<Edge<L>> := {};
    while edges != {}
      invariant reversed + edges == g.edges && reversed !! edges
      invariant t.Valid() && t.View() == Graph(g.nodes, set e | e in reversed :: Reversed(e), true)
      decreases |edges|
    {
      var e :| e in edges;
      NotYetReversed(g, reversed, e);
      var added := t.AddEdge(Some(Reversed(e)));
      ReversedAdd(reversed, e);
      MoveOne(reversed, edges, e);
      reversed, edges := reversed + {e}, edges - {e};
    }
  }

  /** The reversal of an edge not yet handled is not equal to any stored
      reversal: in a well-formed directed graph no two edges share both
      endpoints. */
  lemma NotYetReversed<L>(g: Graph<L>, reversed: set<Edge<L>>, e: Edge<L>)
    requires WellFormed(g) && g.directed && reversed <= g.edges && e in g.edges && e !in reversed
    ensures !HasEdge(Graph(g.nodes, set f | f in reversed :: Reversed(f), true), Reversed(e))
  {
    forall r | r in (set f | f in reversed :: Reversed(f)) ensures !Same(r, Reversed(e)) {
      var f :| f in reversed && r == Reversed(f);
      assert f != e;
      assert !Same(f, e);
    }
  }

  /** Handling one more edge adds its reversal. */
  lemma ReversedAdd<L>(reversed: set<Edge<L>>, e: Edge<L>)
    ensures (set f | f in reversed + {e} :: Reversed(f)) == (set f | f in reversed :: Reversed(f)) + {Reversed(e)}
  {
  }

  /** The state of the main loop of findStronglyConnectedComponents, with
      `order` the stack initDFS built and `stack` what is left of it: every
      node is white or grey, the nodes popped are no longer white, and the
      grey nodes are split into the components found so far, each of them a
      strongly connected component. */
  ghost predicate Collecting<L(!new)>(g: Graph<L>, col: map<L, Color>, order: seq<L>,
                                      stack: seq<L>, sccs: set<set<L>>)
  {
    && Painted(g, col)
    && Distinct(order) && (forall x :: x in order <==> x in g.nodes) && FinishOrdered(g, order)
    && Popped(order, stack, col)
    && Partition(sccs, Greys(g.nodes, col))
    && (forall p :: p in sccs ==> IsComponent(g, p))
  }

  /** Every node of `g` is painted white or grey. */
  ghost predicate Painted<L>(g: Graph<L>, col: map<L, Color>)
  {
    && g.nodes <= col.Keys
    && (forall x :: x in g.nodes ==> col[x] == White || col[x] == Grey)
  }

  /** `stack` is what is left of `order` after popping, and every node
      popped is painted. */
  ghost predicate Popped<L>(order: seq<L>, stack: seq<L>, col: map<L, Color>)
  {
    && |stack| <= |order| && stack == order[..|stack|]
    && (forall k :: |stack| <= k < |order| ==> order[k] in col && col[order[k]] != White)
  }

  /** The loop starts with every node white and on the stack, and no
      component. */
  lemma CollectStart<L(!new)>(g: Graph<L>, col: map<L, Color>, order: seq<L>)
    requires g.nodes <= col.Keys && forall x :: x in g.nodes ==> col[x] == White
    requires Distinct(order) && (forall x :: x in order <==> x in g.nodes) && FinishOrdered(g, order)
    ensures Collecting(g, col, order, order, {})
  {
    assert Greys(g.nodes, col) == {};
  }

  /** A node strongly connected to a painted node is grey: the component
      found for the painted node holds it. */
  lemma GreyUniform<L(!new)>(g: Graph<L>, col: map<L, Color>, order: seq<L>, stack: seq<L>,
                             sccs: set<set<L>>, y: L, x: L)
    requires Collecting(g, col, order, stack, sccs) && y in g.nodes && x in g.nodes
    requires StronglyConnected(g, y, x)
    ensures col[y] != White ==> col[x] == Grey
  {
    if col[y] != White {
      assert y in Greys(g.nodes, col) && InSome(sccs, y);
      var p :| p in sccs && y in p;
      ComponentExact(g, p, y, x);
    }
  }

  /** A white node that reaches the top of the stack, itself white, is
      strongly connected to it: by the finishing order its component has a
      node stacked at least as high, and every node above the top has been
      popped and painted. */
  lemma TopComponent<L(!new)>(g: Graph<L>, col: map<L, Color>, order: seq<L>, stack: seq<L>,
                              sccs: set<set<L>>, x: L)
    requires Collecting(g, col, order, stack, sccs) && stack != [] && col[stack[|stack| - 1]] == White
    requires x in g.nodes && col[x] == White && Reaches(g, x, stack[|stack| - 1])
    ensures StronglyConnected(g, stack[|stack| - 1], x)
  {
    var j := |stack| - 1;
    var top := order[j];
    assert stack[j] == top;
    var i :| 0 <= i < |order| && order[i] == x;
    assert i < |stack|;
    if i != j {
      assert i < j && ReachesAt(g, order, i, j);
      var k :| j <= k < |order| && StronglyConnected(g, x, order[k]);
      ReachableEnds(g, g.nodes, x, order[k]);
      GreyUniform(g, col, order, stack, sccs, order[k], x);
      assert k < |stack|;
    }
  }

  /** The nodes a search of the transpose collects from the white top of the
      stack, through white nodes, are exactly its strongly connected
      component. */
  lemma VisitIsComponent<L(!new)>(g: Graph<L>, t: Graph<L>, col: map<L, Color>, order: seq<L>,
                                  stack0: seq<L>, sccs: set<set<L>>, gn: L, v: set<L>)
    requires g.directed && t == Transpose(g)
    requires Collecting(g, col, order, stack0, sccs) && stack0 != [] && gn == stack0[|stack0| - 1] && col[gn] == White
    requires forall x :: x in v <==> ReachableWithin(t, Whites(t, col), gn, x)
    ensures v == ComponentOf(g, gn)
  {
    var w := Whites(t, col);
    assert gn in order;
    forall x | x in v ensures x in ComponentOf(g, gn) {
      ReachableTransposed(g, w, gn, x);
      ReachableEnds(g, w, x, gn);
      ReachableMonotonic(g, w, g.nodes, x, gn);
      TopComponent(g, col, order, stack0, sccs, x);
    }
    forall x | x in ComponentOf(g, gn) ensures x in v {
      forall y | StronglyConnected(g, gn, y) ensures y in w {
        ReachableEnds(g, g.nodes, gn, y);
        GreyUniform(g, col, order, stack0, sccs, y, gn);
      }
      ReachableInComponent(g, w, gn, x);
      ReachableToTransposed(g, w, x, gn);
    }
  }

  /** Popping the top of the stack once it is painted. */
  lemma PopPainted<L>(order: seq<L>, stack0: seq<L>, col: map<L, Color>)
    requires Popped(order, stack0, col) && stack0 != []
    requires stack0[|stack0| - 1] in col && col[stack0[|stack0| - 1]] != White
    ensures Popped(order, stack0[..|stack0| - 1], col)
  {
    assert stack0[..|stack0| - 1] == order[..|stack0| - 1] && order[|stack0| - 1] == stack0[|stack0| - 1];
  }

  /** Painting white nodes grey keeps every popped node painted. */
  lemma PoppedRepainted<L>(g: Graph<L>, order: seq<L>, stack: seq<L>, col: map<L, Color>, col': map<L, Color>, v: set<L>)
    requires Popped(order, stack, col) && Repainted(g, col, col', v, Grey) && forall x :: x in order ==> x in g.nodes
    ensures Popped(order, stack, col')
  {
    forall k | |stack| <= k < |order| ensures order[k] in col' && col'[order[k]] != White {
      assert order[k] in order;
    }
  }

  /** Popping a node that is no longer white changes nothing else. */
  lemma CollectSkip<L(!new)>(g: Graph<L>, col: map<L, Color>, order: seq<L>, stack0: seq<L>,
                             sccs: set<set<L>>, gn: L)
    requires Collecting(g, col, order, stack0, sccs) && stack0 != [] && gn == stack0[|stack0| - 1] && col[gn] != White
    ensures Collecting(g, col, order, stack0[..|stack0| - 1], sccs)
  {
    PopPainted(order, stack0, col);
  }

  /** Popping a white node and searching the transpose from it paints grey
      a new component: the strongly connected component of the popped
      node. */
  lemma CollectVisit<L(!new)>(g: Graph<L>, t: Graph<L>, col: map<L, Color>, order: seq<L>, stack0: seq<L>,
                              sccs: set<set<L>>, gn: L, col': map<L, Color>, v: set<L>)
    requires g.directed && t == Transpose(g)
    requires Collecting(g, col, order, stack0, sccs) && stack0 != [] && gn == stack0[|stack0| - 1] && col[gn] == White
    requires Repainted(t, col, col', v, Grey)
    requires forall x :: x in v <==> ReachableWithin(t, Whites(t, col), gn, x)
    ensures Collecting(g, col', order, stack0[..|stack0| - 1], sccs + {v})
  {
    VisitIsComponent(g, t, col, order, stack0, sccs, gn, v);
    ComponentsAdd(g, sccs, v, gn);
    ReachableSelf(t, Whites(t, col), gn);
    PartitionGrey(t, sccs, col, col', v, gn);
    PaintedGrey(t, col, col', v);
    PoppedRepainted(g, order, stack0, col, col', v);
    PopPainted(order, stack0, col');
  }

  /** Adding the component of a node keeps every part a component. */
  lemma ComponentsAdd<L(!new)>(g: Graph<L>, sccs: set<set<L>>, v: set<L>, r: L)
    requires (forall p :: p in sccs ==> IsComponent(g, p)) && r in g.nodes && v == ComponentOf(g, r)
    ensures forall p :: p in sccs + {v} ==> IsComponent(g, p)
  {
    assert IsComponent(g, v);
  }

  /** Painting a non-empty set of white nodes grey adds it to the split of
      the grey nodes. */
  lemma PartitionGrey<L>(g: Graph<L>, sccs: set<set<L>>, col: map<L, Color>, col': map<L, Color>, v: set<L>, r: L)
    requires Partition(sccs, Greys(g.nodes, col)) && Repainted(g, col, col', v, Grey) && r in v
    ensures Partition(sccs + {v}, Greys(g.nodes, col'))
  {
    GreysRepainted(g, col, col', v);
    PartitionAdd(sccs, Greys(g.nodes, col), v);
  }

  /** Painting white nodes grey keeps every node white or grey. */
  lemma PaintedGrey<L>(g: Graph<L>, col: map<L, Color>, col': map<L, Color>, v: set<L>)
    requires Painted(g, col) && Repainted(g, col, col', v, Grey)
    ensures Painted(g, col')
  {
  }

  /** When the stack is empty every node is grey, so the components split
      the nodes, and each holds exactly the nodes strongly connected to any
      of its members. */
  lemma CollectEnd<L(!new)>(g: Graph<L>, col: map<L, Color>, order: seq<L>, sccs: set<set<L>>)
    requires Collecting(g, col, order, [], sccs)
    ensures Partition(sccs, g.nodes)
    ensures forall p, x, y :: p in sccs && x in p && y in g.nodes ==> (y in p <==> StronglyConnected(g, x, y))
  {
    forall x | x in g.nodes ensures x in Greys(g.nodes, col) {
      assert x in order;
    }
    assert Greys(g.nodes, col) == g.nodes;
    forall p, x, y | p in sccs && x in p && y in g.nodes ensures y in p <==> StronglyConnected(g, x, y) {
      ComponentExact(g, p, x, y);
    }
  }

  /** findStronglyConnectedComponents: rejects a null graph and an
      undirected one; otherwise stacks the nodes with initDFS, builds the
      transpose, paints every node white again, and pops the stack, running
      DFSvisit on the transpose from each popped node that is still white
      and keeping the nodes it collects as one component. The components
      split the nodes of the graph, and each holds exactly the nodes
      strongly connected to any of its members. */
  method FindStronglyConnectedComponents<L(==, !new)>(g: Option<Graph<L>>) returns (r: Result<set<set<L>>>)
    requires g.Some? ==> WellFormed(g.value)
    ensures g.None? ==> r == Err(NullPointer)
    ensures g.Some? && !g.value.directed ==> r == Err(IllegalArgument)
    ensures g.Some? && g.value.directed ==> r.Ok? && Partition(r.value, g.value.nodes)
    ensures g.Some? && g.value.directed ==> r.Ok? && forall p, x, y ::
              p in r.value && x in p && y in g.value.nodes ==> (y in p <==> StronglyConnected(g.value, x, y))
  {
    if g.None? {
      return Err(NullPointer);
    }
    var G := g.value;
    if !G.directed {
      return Err(IllegalArgument);
    }
    var col, stack := InitDFS(G);
    ghost var order := stack;
    var transpose := GetTranspose(G);
    transpose.ViewWellFormed();
    var t := transpose.View();
    col := Whiten(G.nodes, col);
    var sccs: set<set<L>> := {};
    CollectStart(G, col, order);
    while stack != []
      invariant transpose.View() == t
      invariant Collecting(G, col, order, stack, sccs)
      decreases |stack|
    {
      ghost var stack0 := stack;
      var gn := stack[|stack| - 1];
      stack := stack[..|stack| - 1];
      if col[gn] == White {
        var found := transpose.GetNodeOf(Some(gn));
        var col', comp, v := DFSVisit(t, found.value.value, col, {});
        CollectVisit(G, t, col, order, stack0, sccs, gn, col', v);
        assert comp == v;
        col, sccs := col', sccs + {comp};
      } else {
        CollectSkip(G, col, order, stack0, sccs, gn);
      }
    }
    CollectEnd(G, col, order, sccs);
    return Ok(sccs);
  }
}
