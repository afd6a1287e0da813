/** The dynamic min-priority queue of MP1/TernaryHeapMinPriorityQueue.java:
    a ternary heap kept in a growable list, slot 0 being the root, whose
    elements carry a priority and a handle (the slot they occupy). Elements
    are values of a type with equality standing for object identity; the
    priority and handle fields of the queued elements are the maps
    `priority` and `handle`. */
module PriorityQueue {
  import opened Common

  /** Slot of the parent of slot `i`: `(i - 1) / 3` with Java's division,
      which truncates toward zero, so the root is its own parent. */
  function Parent(i: nat): nat
  {
    if i == 0 then 0 else (i - 1) / 3
  }

  function Left(i: nat): nat { 3 * i + 1 }

  function Center(i: nat): nat { 3 * i + 2 }

  function Right(i: nat): nat { 3 * i + 3 }

  /** The three child slots of `i` are exactly the non-root slots whose parent is `i`. */
  lemma ChildrenOfParent(i: nat, c: nat)
    ensures (c > 0 && Parent(c) == i) <==> (c == Left(i) || c == Center(i) || c == Right(i))
  {
    if c > 0 && Parent(c) == i {
      assert c - 1 == 3 * i + (c - 1) % 3;
    }
  }

  /** Every non-root slot comes after its parent. */
  lemma ParentBefore(i: nat)
    requires i > 0
    ensures Parent(i) < i
  {
  }

  /** Every slot holds an element with a priority and with its handle set to
      that slot, and every handle points back at its element; hence the
      slots hold distinct elements. */
  ghost predicate Indexed<E>(h: seq<E>, prio: map<E, real>, hd: map<E, int>)
  {
    && prio.Keys == hd.Keys
    && (forall i :: 0 <= i < |h| ==> h[i] in hd && hd[h[i]] == i)
    && (forall e :: e in hd ==> 0 <= hd[e] < |h| && h[hd[e]] == e)
  }

  /** Every slot's element has a priority. */
  ghost predicate Keyed<E>(h: seq<E>, prio: map<E, real>)
  {
    forall i :: 0 <= i < |h| ==> h[i] in prio
  }

  /** Heap order: no element has a smaller priority than its parent. */
  ghost predicate Ordered<E>(h: seq<E>, prio: map<E, real>)
    requires Keyed(h, prio)
  {
    forall i :: 0 < i < |h| ==> prio[h[Parent(i)]] <= prio[h[i]]
  }

  /** Heap order everywhere except between slot `j` and its parent. */
  ghost predicate OrderedExcept<E>(h: seq<E>, prio: map<E, real>, j: nat)
    requires Keyed(h, prio)
  {
    forall i :: 0 < i < |h| && i != j ==> prio[h[Parent(i)]] <= prio[h[i]]
  }

  /** Heap order everywhere except between slot `j` and its children. */
  ghost predicate OrderedBelow<E>(h: seq<E>, prio: map<E, real>, j: nat)
    requires Keyed(h, prio)
  {
    forall i :: 0 < i < |h| && Parent(i) != j ==> prio[h[Parent(i)]] <= prio[h[i]]
  }

  /** The parent of a non-root slot `j` is no greater than the children of `j`:
      the bridge that lets `j` be exchanged with its parent or its child. */
  ghost predicate Bridged<E>(h: seq<E>, prio: map<E, real>, j: nat)
    requires Keyed(h, prio)
  {
    0 < j < |h| ==>
      forall c :: 0 < c < |h| && Parent(c) == j ==> prio[h[Parent(j)]] <= prio[h[c]]
  }

  /** In heap order, every element's priority is at least the root's. */
  lemma {:induction false} RootIsMinimum<E>(h: seq<E>, prio: map<E, real>, i: nat)
    requires Keyed(h, prio) && Ordered(h, prio)
    requires i < |h|
    ensures prio[h[0]] <= prio[h[i]]
    decreases i
  {
    if i > 0 {
      ParentBefore(i);
      RootIsMinimum(h, prio, Parent(i));
    }
  }

  /** A coherent heap has exactly one queued element per slot. */
  lemma SizeIsCount<E>(h: seq<E>, prio: map<E, real>, hd: map<E, int>)
    requires Indexed(h, prio, hd)
    ensures |prio| == |h|
  {
    assert prio.Keys == set x | x in h;
    DistinctElements(h);
  }

  /** Slots `a` and `b` of `h` exchanged. */
  function Swapped<E>(h: seq<E>, a: nat, b: nat): (r: seq<E>)
    requires a < |h| && b < |h|
    ensures |r| == |h| && r[a] == h[b] && r[b] == h[a]
    ensures forall i :: 0 <= i < |h| && i != a && i != b ==> r[i] == h[i]
  {
    h[a := h[b]][b := h[a]]
  }

  /** Exchanging a non-root slot `j` with its greater parent moves the one
      possible break of heap order up to the parent. */
  lemma LiftStep<E>(h: seq<E>, prio: map<E, real>, j: nat)
    requires Keyed(h, prio) && 0 < j < |h|
    requires OrderedExcept(h, prio, j) && Bridged(h, prio, j)
    requires prio[h[Parent(j)]] > prio[h[j]]
    ensures Keyed(Swapped(h, Parent(j), j), prio)
    ensures OrderedExcept(Swapped(h, Parent(j), j), prio, Parent(j))
    ensures Bridged(Swapped(h, Parent(j), j), prio, Parent(j))
  {
    var p := Parent(j);
    ParentBefore(j);
    var h' := Swapped(h, p, j);
    forall i | 0 < i < |h'| && i != p
      ensures prio[h'[Parent(i)]] <= prio[h'[i]]
    {
      if Parent(i) == p {
        assert prio[h'[p]] < prio[h[p]];
        if i != j {
          assert prio[h[p]] <= prio[h[i]];
        }
      } else if Parent(i) == j {
        assert prio[h[Parent(j)]] <= prio[h[i]];
      } else if i != j {
        assert h'[Parent(i)] == h[Parent(i)];
      }
    }
    if p > 0 {
      ParentBefore(p);
      forall c | 0 < c < |h'| && Parent(c) == p
        ensures prio[h'[Parent(p)]] <= prio[h'[c]]
      {
        assert h'[Parent(p)] == h[Parent(p)];
        assert prio[h[Parent(p)]] <= prio[h[p]];
        if c != j {
          assert prio[h[p]] <= prio[h[c]];
        }
      }
    }
  }

  /** Exchanging slot `i` with a child `s` of least priority among `i` and its
      children moves the one place where order may fail down to `s`. */
  lemma SinkStep<E>(h: seq<E>, prio: map<E, real>, i: nat, s: nat)
    requires Keyed(h, prio) && i < s < |h| && Parent(s) == i
    requires OrderedBelow(h, prio, i) && Bridged(h, prio, i)
    requires forall c :: 0 < c < |h| && Parent(c) == i ==> prio[h[s]] <= prio[h[c]]
    requires prio[h[s]] <= prio[h[i]]
    ensures Keyed(Swapped(h, i, s), prio)
    ensures OrderedBelow(Swapped(h, i, s), prio, s) && Bridged(Swapped(h, i, s), prio, s)
  {
    var h' := Swapped(h, i, s);
    forall c | 0 < c < |h'| && Parent(c) != s
      ensures prio[h'[Parent(c)]] <= prio[h'[c]]
    {
      if Parent(c) != i && c != i {
        ParentBefore(c);
        assert h'[Parent(c)] == h[Parent(c)] && h'[c] == h[c];
      }
    }
    forall c | 0 < c < |h'| && Parent(c) == s
      ensures prio[h'[Parent(s)]] <= prio[h'[c]]
    {
      ParentBefore(c);
      assert h'[c] == h[c];
    }
  }

  /** When slot `i` is no greater than any of its children, order holds everywhere. */
  lemma SinkDone<E>(h: seq<E>, prio: map<E, real>, i: nat)
    requires Keyed(h, prio) && OrderedBelow(h, prio, i)
    requires i < |h| ==> forall c :: 0 < c < |h| && Parent(c) == i ==> prio[h[i]] <= prio[h[c]]
    ensures Ordered(h, prio)
  {
    forall c | 0 < c < |h| && Parent(c) == i
      ensures prio[h[Parent(c)]] <= prio[h[c]]
    {
      ParentBefore(c);
    }
  }

  class TernaryHeapMinPriorityQueue<E(==)> {
    /** The ternary heap: slot 0 is the root, the children of slot i are 3i+1, 3i+2 and 3i+3. */
    var heap: seq<E>
    /** The priority of each queued element. */
    var priority: map<E, real>
    /** The handle of each queued element: the slot it occupies. */
    var handle: map<E, int>

    ghost predicate Valid()
      reads this
    {
      && Indexed(heap, priority, handle)
      && Keyed(heap, priority)
      && Ordered(heap, priority)
    }

    constructor ()
      ensures Valid() && heap == [] && priority == map[] && handle == map[]
    {
      heap, priority, handle := [], map[], map[];
    }

    method Size() returns (n: nat)
      requires Valid()
      ensures n == |heap| && n == |priority|
    {
      SizeIsCount(heap, priority, handle);
      n := |heap|;
    }

    /** Exchanges two slots and sets the handles of the two moved elements. */
    method Swap(a: nat, b: nat)
      requires Indexed(heap, priority, handle) && a < |heap| && b < |heap|
      modifies this
      ensures heap == Swapped(old(heap), a, b)
      ensures handle == old(handle)[old(heap)[b] := a][old(heap)[a] := b]
      ensures priority == old(priority)
      ensures Indexed(heap, priority, handle)
    {
      var x, y := heap[a], heap[b];
      heap := heap[a := y];
      handle := handle[y := a];
      heap := heap[b := x];
      handle := handle[x := b];
    }

    /** Moves the element of slot `j` up, exchanging it with its parent while
        the parent's priority is greater. */
    method SiftUp(j0: nat)
      requires Indexed(heap, priority, handle) && Keyed(heap, priority) && j0 < |heap|
      requires OrderedExcept(heap, priority, j0) && Bridged(heap, priority, j0)
      modifies this
      ensures Valid() && priority == old(priority) && |heap| == old(|heap|)
    {
      var j: nat := j0;
      while j > 0 && priority[heap[Parent(j)]] > priority[heap[j]]
        invariant Indexed(heap, priority, handle) && Keyed(heap, priority)
        invariant j < |heap| && |heap| == old(|heap|) && priority == old(priority)
        invariant OrderedExcept(heap, priority, j) && Bridged(heap, priority, j)
        decreases j
      {
        var p := Parent(j);
        LiftStep(heap, priority, j);
        Swap(p, j);
        j := p;
      }
    }

    /** Adds an element with priority `p`, at the end and then moved up to its place. */
    method Insert(element: Option<E>, p: real) returns (r: Outcome)
      requires Valid()
      requires element.Some? ==> element.value !in priority
      modifies this
      ensures Valid()
      ensures element.None? ==> r == Fail(NullPointer) && unchanged(this)
      ensures element.Some? ==>
        && r == Pass
        && priority == old(priority)[element.value := p]
        && |heap| == old(|heap|) + 1
        && heap[handle[element.value]] == element.value
    {
      if element.None? {
        return Fail(NullPointer);
      }
      var e := element.value;
      var n := |heap|;
      heap := heap + [e];
      priority := priority[e := p];
      handle := handle[e := n];
      assert OrderedExcept(heap, priority, n) by {
        forall i | 0 < i < |heap| && i != n
          ensures priority[heap[Parent(i)]] <= priority[heap[i]]
        {
          ParentBefore(i);
        }
      }
      SiftUp(n);
      r := Pass;
    }

    /** The root: an element of least priority. */
    method Minimum() returns (r: Result<E>)
      requires Valid()
      ensures heap == [] ==> r == Err(NoSuchElement)
      ensures heap != [] ==>
        && r == Ok(heap[0]) && r.value in priority
        && forall e :: e in priority ==> priority[r.value] <= priority[e]
    {
      if heap == [] {
        return Err(NoSuchElement);
      }
      forall e | e in priority
        ensures priority[heap[0]] <= priority[e]
      {
        RootIsMinimum(heap, priority, handle[e]);
      }
      r := Ok(heap[0]);
    }

    /** Restores heap order below slot `i`: exchanges it with the child of
        least priority (the last one on ties, as the comparisons are `<=`)
        and continues from that child. */
    method MinHeapify(i: nat)
      requires Indexed(heap, priority, handle) && Keyed(heap, priority)
      requires OrderedBelow(heap, priority, i) && Bridged(heap, priority, i)
      modifies this
      ensures Valid() && priority == old(priority) && |heap| == old(|heap|)
      decreases |heap| - i
    {
      var left, center, right := Left(i), Center(i), Right(i);
      var smallest;
      if left < |heap| && priority[heap[left]] <= priority[heap[i]] {
        smallest := left;
      } else {
        smallest := i;
      }
      if center < |heap| && priority[heap[center]] <= priority[heap[smallest]] {
        smallest := center;
      }
      if right < |heap| && priority[heap[right]] <= priority[heap[smallest]] {
        smallest := right;
      }
      assert smallest == i || (smallest > 0 && Parent(smallest) == i) by {
        ChildrenOfParent(i, left);
        ChildrenOfParent(i, center);
        ChildrenOfParent(i, right);
      }
      forall c | 0 < c < |heap| && Parent(c) == i
        ensures priority[heap[smallest]] <= priority[heap[c]]
      {
        ChildrenOfParent(i, c);
      }
      if smallest != i {
        SinkStep(heap, priority, i, smallest);
        Swap(i, smallest);
        MinHeapify(smallest);
      } else {
        SinkDone(heap, priority, i);
      }
    }

    /** Removes and returns the root: the last slot's element is moved to the
        root and then moved down to its place. */
    method ExtractMinimum() returns (r: Result<E>)
      requires Valid()
      modifies this
      ensures Valid()
      ensures old(heap) == [] ==> r == Err(NoSuchElement) && unchanged(this)
      ensures old(heap) != [] ==>
        && r == Ok(old(heap)[0]) && r.value in old(priority)
        && (forall e :: e in old(priority) ==> old(priority)[r.value] <= old(priority)[e])
        && priority == old(priority) - {r.value}
        && |heap| == old(|heap|) - 1
    {
      if heap == [] {
        return Err(NoSuchElement);
      }
      var min := heap[0];
      forall e | e in priority
        ensures priority[min] <= priority[e]
      {
        RootIsMinimum(heap, priority, handle[e]);
      }
      ghost var h0 := heap;
      var last := |heap| - 1;
      Swap(0, last);
      heap := heap[..last];
      priority := priority - {min};
      handle := handle - {min};
      assert OrderedBelow(heap, priority, 0) by {
        forall c | 0 < c < |heap| && Parent(c) != 0
          ensures priority[heap[Parent(c)]] <= priority[heap[c]]
        {
          ParentBefore(c);
          assert heap[c] == h0[c] && heap[Parent(c)] == h0[Parent(c)];
        }
      }
      MinHeapify(0);
      r := Ok(min);
    }

    /** Lowers the priority of a queued element and moves it up to its place.
        A priority equal to the current one is accepted. */
    method DecreasePriority(element: Option<E>, p: real) returns (r: Outcome)
      requires Valid()
      modifies this
      ensures Valid()
      ensures (element.None? || element.value !in old(priority)) ==>
        r == Fail(NoSuchElement) && unchanged(this)
      ensures element.Some? && element.value in old(priority) && p > old(priority)[element.value] ==>
        r == Fail(IllegalArgument) && unchanged(this)
      ensures element.Some? && element.value in old(priority) && p <= old(priority)[element.value] ==>
        && r == Pass
        && priority == old(priority)[element.value := p]
        && |heap| == old(|heap|)
        && heap[handle[element.value]] == element.value
    {
      if element.None? || element.value !in priority {
        return Fail(NoSuchElement);
      }
      var e := element.value;
      if priority[e] < p {
        return Fail(IllegalArgument);
      }
      var j := handle[e];
      ghost var before := priority;
      priority := priority[e := p];
      forall i | 0 < i < |heap| && Parent(i) == j
        ensures priority[heap[j]] <= priority[heap[i]]
      {
        assert heap[i] != e;
      }
      assert Bridged(heap, priority, j) by {
        if 0 < j {
          forall c | 0 < c < |heap| && Parent(c) == j
            ensures priority[heap[Parent(j)]] <= priority[heap[c]]
          {
            ParentBefore(j);
            assert heap[Parent(j)] != e && heap[c] != e;
            assert before[heap[Parent(j)]] <= before[heap[j]];
          }
        }
      }
      SiftUp(j);
      r := Pass;
    }

    method Clear()
      modifies this
      ensures Valid() && heap == [] && priority == map[]
    {
      heap, priority, handle := [], map[], map[];
    }
  }

  /** The sift-up loop of `insert` as written: the loop test compares the
      priorities of two objects fetched once before the loop, so it never
      changes while the element climbs; `climb` is that fixed test. */
  function {:induction false} InsertLoopAsWritten<E>(h: seq<E>, j: nat, climb: bool): (r: seq<E>)
    requires j < |h|
    ensures |r| == |h|
    decreases j
  {
    if j > 0 && climb then
      InsertLoopAsWritten(Swapped(h, Parent(j), j), Parent(j), climb)
    else h
  }

  /** `insert` as written, on slots and priorities. */
  function InsertAsWritten<E>(h: seq<E>, prio: map<E, real>, e: E): (r: seq<E>)
    requires Keyed(h, prio) && e in prio
    ensures |r| == |h| + 1
  {
    var n := |h|;
    var h' := h + [e];
    InsertLoopAsWritten(h', n, prio[h'[Parent(n)]] > prio[e])
  }

  /** Inserting 4 into the heap 1, 5, 6, 7 climbs past the root 1 as written:
      the result is 4, 1, 6, 7, 5, whose root is above a smaller child. */
  lemma InsertAsWrittenBreaksOrder()
    ensures var prio := map['a' := 1.0, 'b' := 5.0, 'c' := 6.0, 'd' := 7.0, 'e' := 4.0];
      && Keyed(['a', 'b', 'c', 'd'], prio)
      && Ordered(['a', 'b', 'c', 'd'], prio)
      && Keyed(InsertAsWritten(['a', 'b', 'c', 'd'], prio, 'e'), prio)
      && !Ordered(InsertAsWritten(['a', 'b', 'c', 'd'], prio, 'e'), prio)
  {
    var prio := map['a' := 1.0, 'b' := 5.0, 'c' := 6.0, 'd' := 7.0, 'e' := 4.0];
    var h := ['a', 'b', 'c', 'd'];
    assert Parent(4) == 1 && Parent(1) == 0;
    assert Parent(2) == 0 && Parent(3) == 0;
    var h1 := Swapped(h + ['e'], 1, 4);
    assert h1 == ['a', 'e', 'c', 'd', 'b'];
    var h2 := Swapped(h1, 0, 1);
    assert h2 == ['e', 'a', 'c', 'd', 'b'];
    assert InsertLoopAsWritten(h1, 1, true) == h2;
    assert InsertAsWritten(h, prio, 'e') == h2;
    assert prio[h2[Parent(1)]] > prio[h2[1]];
  }

  /** `decreasePriority` as written, on slots and priorities: the loop fetches
      the parent once and, after the first exchange, compares that parent with
      itself, so at most one exchange happens. */
  function DecreaseAsWritten<E>(h: seq<E>, prio: map<E, real>, j: nat, p: real): (r: seq<E>)
    requires Keyed(h, prio) && j < |h|
    ensures |r| == |h|
  {
    var prio' := prio[h[j] := p];
    if prio'[h[Parent(j)]] > prio'[h[j]] then Swapped(h, j, Parent(j)) else h
  }

  /** Decreasing the priority 8 in slot 4 of the heap 1, 5, 6, 7, 8 to 0
      stops after one exchange as written: 1, 0, 6, 7, 5 is out of order. */
  lemma DecreaseAsWrittenBreaksOrder()
    ensures var prio := map['a' := 1.0, 'b' := 5.0, 'c' := 6.0, 'd' := 7.0, 'e' := 8.0];
      && Keyed(['a', 'b', 'c', 'd', 'e'], prio)
      && Ordered(['a', 'b', 'c', 'd', 'e'], prio)
      && Keyed(DecreaseAsWritten(['a', 'b', 'c', 'd', 'e'], prio, 4, 0.0), prio['e' := 0.0])
      && !Ordered(DecreaseAsWritten(['a', 'b', 'c', 'd', 'e'], prio, 4, 0.0), prio['e' := 0.0])
  {
    var prio := map['a' := 1.0, 'b' := 5.0, 'c' := 6.0, 'd' := 7.0, 'e' := 8.0];
    var h := ['a', 'b', 'c', 'd', 'e'];
    assert Parent(4) == 1 && Parent(1) == 0;
    assert Parent(2) == 0 && Parent(3) == 0;
    var h1 := Swapped(h, 4, 1);
    assert h1 == ['a', 'e', 'c', 'd', 'b'];
    assert DecreaseAsWritten(h, prio, 4, 0.0) == h1;
    assert prio['e' := 0.0][h1[Parent(1)]] > prio['e' := 0.0][h1[1]];
  }
}
