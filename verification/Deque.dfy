/** The double-ended queue of MP1/ASDL2021Deque.java: a doubly linked list of
    nodes with a size counter and a modification counter that makes its
    iterators fail fast. The ghost sequence `nodes` lists the linked nodes from
    first to last and `Contents` the elements they hold. */
module Deque {
  import opened Common

  /** One node of the doubly linked list. */
  class Node<E> {
    var item: E
    var next: Node?<E>
    var prev: Node?<E>

    constructor (prev: Node?<E>, element: E, next: Node?<E>)
      ensures this.item == element && this.next == next && this.prev == prev
    {
      this.item := element;
      this.next := next;
      this.prev := prev;
    }
  }

  class ASDL2021Deque<E(==)> {
    var size: int
    var first: Node?<E>
    var last: Node?<E>
    /** Number of mutations so far; the iterators compare it with their own copy. */
    var actualChanges: int

    ghost var nodes: seq<Node<E>>
    ghost var Contents: seq<E>
    ghost var Repr: set<object>

    /** The object invariant: `first`..`last` is a well-linked chain through
        `nodes`, `size` counts its nodes and `Contents` lists their items. */
    ghost predicate Valid()
      reads this, Repr
      ensures Valid() ==> this in Repr
    {
      && this in Repr
      && (forall i :: 0 <= i < |nodes| ==> nodes[i] in Repr)
      && (forall i, j :: 0 <= i < j < |nodes| ==> nodes[i] != nodes[j])
      && |Contents| == |nodes| == size
      && (forall i :: 0 <= i < |nodes| ==> nodes[i].item == Contents[i])
      && (nodes == [] ==> first == null && last == null)
      && (nodes != [] ==>
            first == nodes[0] && last == nodes[|nodes| - 1]
            && first.prev == null && last.next == null)
      && (forall i :: 0 <= i < |nodes| ==> (nodes[i].next == null <==> i == |nodes| - 1))
      && (forall i :: 0 <= i < |nodes| ==> (nodes[i].prev == null <==> i == 0))
      && (forall i :: 0 <= i < |nodes| - 1 ==> nodes[i].next == nodes[i + 1])
      && (forall i :: 0 < i < |nodes| ==> nodes[i].prev == nodes[i - 1])
    }

    constructor ()
      ensures Valid() && fresh(Repr)
      ensures Contents == [] && actualChanges == 0
    {
      first := null;
      last := null;
      size := 0;
      actualChanges := 0;
      nodes := [];
      Contents := [];
      Repr := {this};
    }

    method IsEmpty() returns (b: bool)
      requires Valid()
      ensures b <==> Contents == []
    {
      b := size == 0;
    }

    method Size() returns (n: int)
      requires Valid()
      ensures n == |Contents|
    {
      n := size;
    }

    /** Lists the elements from first to last (the source fills an array). */
    method ToArray() returns (a: seq<E>)
      requires Valid()
      ensures a == Contents
    {
      a := [];
      var n := first;
      ghost var i := 0;
      while n != null
        invariant 0 <= i <= |nodes|
        invariant n == if i < |nodes| then nodes[i] else null
        invariant a == Contents[..i]
        decreases |nodes| - i
      {
        a := a + [n.item];
        n := n.next;
        i := i + 1;
      }
    }

    method Clear()
      requires Valid()
      modifies this
      ensures Valid() && fresh(Repr - old(Repr))
      ensures Contents == [] && actualChanges == old(actualChanges) + 1
    {
      first := null;
      last := null;
      size := 0;
      actualChanges := actualChanges + 1;
      nodes := [];
      Contents := [];
    }

    method AddFirst(e: Option<E>) returns (r: Outcome)
      requires Valid()
      modifies Repr
      ensures Valid() && fresh(Repr - old(Repr))
      ensures r == Fail(NullPointer) <==> e == None
      ensures r == Pass <==> e != None
      ensures e == None ==> Contents == old(Contents) && actualChanges == old(actualChanges)
      ensures e != None ==> Contents == [e.value] + old(Contents) && actualChanges == old(actualChanges) + 1
    {
      if e == None {
        return Fail(NullPointer);
      }
      var n := new Node(null, e.value, null);
      if first == null {
        first, last := n, n;
      } else {
        n.next := first;
        first.prev := n;
        first := n;
      }
      size := size + 1;
      actualChanges := actualChanges + 1;
      nodes := [n] + nodes;
      Contents := [e.value] + Contents;
      Repr := Repr + {n};
      r := Pass;
    }

    method AddLast(e: Option<E>) returns (r: Outcome)
      requires Valid()
      modifies Repr
      ensures Valid() && fresh(Repr - old(Repr))
      ensures r == Fail(NullPointer) <==> e == None
      ensures r == Pass <==> e != None
      ensures e == None ==> Contents == old(Contents) && actualChanges == old(actualChanges)
      ensures e != None ==> Contents == old(Contents) + [e.value] && actualChanges == old(actualChanges) + 1
    {
      if e == None {
        return Fail(NullPointer);
      }
      var n := new Node(null, e.value, null);
      if size == 0 {
        first, last := n, n;
      } else {
        last.next := n;
        n.prev := last;
        last := n;
      }
      size := size + 1;
      actualChanges := actualChanges + 1;
      nodes := nodes + [n];
      Contents := Contents + [e.value];
      Repr := Repr + {n};
      r := Pass;
    }

    method OfferFirst(e: Option<E>) returns (r: Result<bool>)
      requires Valid()
      modifies Repr
      ensures Valid() && fresh(Repr - old(Repr))
      ensures r == (if e == None then Err(NullPointer) else Ok(true))
      ensures e == None ==> Contents == old(Contents) && actualChanges == old(actualChanges)
      ensures e != None ==> Contents == [e.value] + old(Contents) && actualChanges == old(actualChanges) + 1
    {
      var o := AddFirst(e);
      r := if o.Fail? then Err(o.error) else Ok(true);
    }

    method OfferLast(e: Option<E>) returns (r: Result<bool>)
      requires Valid()
      modifies Repr
      ensures Valid() && fresh(Repr - old(Repr))
      ensures r == (if e == None then Err(NullPointer) else Ok(true))
      ensures e == None ==> Contents == old(Contents) && actualChanges == old(actualChanges)
      ensures e != None ==> Contents == old(Contents) + [e.value] && actualChanges == old(actualChanges) + 1
    {
      var o := AddLast(e);
      r := if o.Fail? then Err(o.error) else Ok(true);
    }

    method RemoveFirst() returns (r: Result<E>)
      requires Valid()
      modifies Repr
      ensures Valid() && fresh(Repr - old(Repr))
      ensures old(Contents) == [] ==> r == Err(NoSuchElement) && Contents == old(Contents) && actualChanges == old(actualChanges)
      ensures old(Contents) != [] ==>
        r == Ok(old(Contents)[0]) && Contents == old(Contents)[1..] && actualChanges == old(actualChanges) + 1
    {
      if size == 0 {
        return Err(NoSuchElement);
      }
      var item := first.item;
      if first == last {
        first, last := null, null;
      } else {
        assert |nodes| > 1 && first.next == nodes[1];
        first := first.next;
        first.prev := null;
      }
      size := size - 1;
      actualChanges := actualChanges + 1;
      nodes := nodes[1..];
      Contents := Contents[1..];
      r := Ok(item);
    }

    method RemoveLast() returns (r: Result<E>)
      requires Valid()
      modifies Repr
      ensures Valid() && fresh(Repr - old(Repr))
      ensures old(Contents) == [] ==> r == Err(NoSuchElement) && Contents == old(Contents) && actualChanges == old(actualChanges)
      ensures old(Contents) != [] ==>
        r == Ok(old(Contents)[|old(Contents)| - 1]) && Contents == old(Contents)[..|old(Contents)| - 1]
        && actualChanges == old(actualChanges) + 1
    {
      if size == 0 {
        return Err(NoSuchElement);
      }
      var lastItem := last.item;
      var firstItem := first.item;
      if first.next == null {
        // a single node: it is both the first and the last one
        first, last := null, null;
        size := size - 1;
        actualChanges := actualChanges + 1;
        nodes := [];
        Contents := [];
        return Ok(firstItem);
      }
      assert |nodes| > 1 && last.prev == nodes[|nodes| - 2];
      last := last.prev;
      last.next := null;
      size := size - 1;
      actualChanges := actualChanges + 1;
      nodes := nodes[..|nodes| - 1];
      Contents := Contents[..|Contents| - 1];
      r := Ok(lastItem);
    }

    method PollFirst() returns (r: Option<E>)
      requires Valid()
      modifies Repr
      ensures Valid() && fresh(Repr - old(Repr))
      ensures old(Contents) == [] ==> r == None && Contents == old(Contents) && actualChanges == old(actualChanges)
      ensures old(Contents) != [] ==>
        r == Some(old(Contents)[0]) && Contents == old(Contents)[1..] && actualChanges == old(actualChanges) + 1
    {
      var x := RemoveFirst();
      r := if x.Ok? then Some(x.value) else None;
    }

    method PollLast() returns (r: Option<E>)
      requires Valid()
      modifies Repr
      ensures Valid() && fresh(Repr - old(Repr))
      ensures old(Contents) == [] ==> r == None && Contents == old(Contents) && actualChanges == old(actualChanges)
      ensures old(Contents) != [] ==>
        r == Some(old(Contents)[|old(Contents)| - 1]) && Contents == old(Contents)[..|old(Contents)| - 1]
        && actualChanges == old(actualChanges) + 1
    {
      var x := RemoveLast();
      r := if x.Ok? then Some(x.value) else None;
    }

    method GetFirst() returns (r: Result<E>)
      requires Valid()
      ensures r == if Contents == [] then Err(NoSuchElement) else Ok(Contents[0])
    {
      if size == 0 {
        return Err(NoSuchElement);
      }
      r := Ok(first.item);
    }

    method GetLast() returns (r: Result<E>)
      requires Valid()
      ensures r == if Contents == [] then Err(NoSuchElement) else Ok(Contents[|Contents| - 1])
    {
      if size == 0 {
        return Err(NoSuchElement);
      }
      r := Ok(last.item);
    }

    method PeekFirst() returns (r: Option<E>)
      requires Valid()
      ensures r == if Contents == [] then None else Some(Contents[0])
    {
      if size == 0 {
        return None;
      }
      r := Some(first.item);
    }

    method PeekLast() returns (r: Option<E>)
      requires Valid()
      ensures r == if Contents == [] then None else Some(Contents[|Contents| - 1])
    {
      if size == 0 {
        return None;
      }
      r := Some(last.item);
    }

    /** Queue insertion: at the back. */
    method Add(e: Option<E>) returns (r: Result<bool>)
      requires Valid()
      modifies Repr
      ensures Valid() && fresh(Repr - old(Repr))
      ensures r == (if e == None then Err(NullPointer) else Ok(true))
      ensures e == None ==> Contents == old(Contents) && actualChanges == old(actualChanges)
      ensures e != None ==> Contents == old(Contents) + [e.value] && actualChanges == old(actualChanges) + 1
    {
      var o := AddLast(e);
      r := if o.Fail? then Err(o.error) else Ok(true);
    }

    method Offer(e: Option<E>) returns (r: Result<bool>)
      requires Valid()
      modifies Repr
      ensures Valid() && fresh(Repr - old(Repr))
      ensures r == (if e == None then Err(NullPointer) else Ok(true))
      ensures e == None ==> Contents == old(Contents) && actualChanges == old(actualChanges)
      ensures e != None ==> Contents == old(Contents) + [e.value] && actualChanges == old(actualChanges) + 1
    {
      r := OfferLast(e);
    }

    /** Queue removal: from the front. */
    method Remove() returns (r: Result<E>)
      requires Valid()
      modifies Repr
      ensures Valid() && fresh(Repr - old(Repr))
      ensures old(Contents) == [] ==> r == Err(NoSuchElement) && Contents == old(Contents) && actualChanges == old(actualChanges)
      ensures old(Contents) != [] ==>
        r == Ok(old(Contents)[0]) && Contents == old(Contents)[1..] && actualChanges == old(actualChanges) + 1
    {
      r := RemoveFirst();
    }

    method Poll() returns (r: Option<E>)
      requires Valid()
      modifies Repr
      ensures Valid() && fresh(Repr - old(Repr))
      ensures old(Contents) == [] ==> r == None && Contents == old(Contents) && actualChanges == old(actualChanges)
      ensures old(Contents) != [] ==>
        r == Some(old(Contents)[0]) && Contents == old(Contents)[1..] && actualChanges == old(actualChanges) + 1
    {
      r := PollFirst();
    }

    method Element() returns (r: Result<E>)
      requires Valid()
      ensures r == if Contents == [] then Err(NoSuchElement) else Ok(Contents[0])
    {
      r := GetFirst();
    }

    method Peek() returns (r: Option<E>)
      requires Valid()
      ensures r == if Contents == [] then None else Some(Contents[0])
    {
      r := PeekFirst();
    }

    /** Stack insertion: at the front. */
    method Push(e: Option<E>) returns (r: Outcome)
      requires Valid()
      modifies Repr
      ensures Valid() && fresh(Repr - old(Repr))
      ensures r == Fail(NullPointer) <==> e == None
      ensures e == None ==> Contents == old(Contents) && actualChanges == old(actualChanges)
      ensures e != None ==> Contents == [e.value] + old(Contents) && actualChanges == old(actualChanges) + 1
    {
      r := AddFirst(e);
    }

    /** Stack removal: from the front. */
    method Pop() returns (r: Result<E>)
      requires Valid()
      modifies Repr
      ensures Valid() && fresh(Repr - old(Repr))
      ensures old(Contents) == [] ==> r == Err(NoSuchElement) && Contents == old(Contents) && actualChanges == old(actualChanges)
      ensures old(Contents) != [] ==>
        r == Ok(old(Contents)[0]) && Contents == old(Contents)[1..] && actualChanges == old(actualChanges) + 1
    {
      r := RemoveFirst();
    }

    method Contains(o: Option<E>) returns (r: Result<bool>)
      requires Valid()
      ensures o == None ==> r == Err(NullPointer)
      ensures o != None ==> r == Ok(o.value in Contents)
    {
      if o == None {
        return Err(NullPointer);
      }
      var n := first;
      ghost var i := 0;
      while n != null
        invariant 0 <= i <= |nodes|
        invariant n == if i < |nodes| then nodes[i] else null
        invariant o.value !in Contents[..i]
        decreases |nodes| - i
      {
        if o.value == n.item {
          return Ok(true);
        }
        n := n.next;
        i := i + 1;
      }
      assert Contents[..i] == Contents;
      r := Ok(false);
    }
  }

  /** The fail-fast iterator, first to last. `pos` counts the elements it has
      returned; while the deque is unmodified its cursor is the node at pos-1. */
  class Itr<E(==)> {
    const deque: ASDL2021Deque<E>
    var currentNode: Node?<E>
    var expectedChanges: int
    ghost var pos: nat

    ghost predicate Valid()
      reads this, deque, deque.Repr
    {
      && deque.Valid()
      && expectedChanges <= deque.actualChanges
      && (expectedChanges == deque.actualChanges ==>
            && pos <= |deque.nodes|
            && currentNode == if pos == 0 then null else deque.nodes[pos - 1])
    }

    constructor (d: ASDL2021Deque<E>)
      requires d.Valid()
      ensures Valid() && deque == d && pos == 0 && expectedChanges == d.actualChanges
    {
      deque := d;
      currentNode := null;
      expectedChanges := d.actualChanges;
      pos := 0;
    }

    method HasNext() returns (b: bool)
      requires Valid()
      ensures expectedChanges == deque.actualChanges ==> (b <==> pos < |deque.Contents|)
    {
      if currentNode == null {
        b := deque.size != 0;
      } else if expectedChanges == deque.actualChanges {
        assert pos < |deque.nodes| ==> currentNode.next == deque.nodes[pos];
        b := currentNode.next != null;
      } else {
        b := currentNode.next != null;
      }
    }

    method Next() returns (r: Result<E>)
      requires Valid()
      modifies this
      ensures Valid() && expectedChanges == old(expectedChanges)
      ensures old(expectedChanges) < deque.actualChanges ==> r == Err(ConcurrentModification) && pos == old(pos)
      ensures old(expectedChanges) == deque.actualChanges && old(pos) == |deque.Contents| ==>
        r == Err(NoSuchElement) && pos == old(pos)
      ensures old(expectedChanges) == deque.actualChanges && old(pos) < |deque.Contents| ==>
        r == Ok(deque.Contents[old(pos)]) && pos == old(pos) + 1
    {
      if deque.actualChanges > expectedChanges {
        return Err(ConcurrentModification);
      }
      var more := HasNext();
      if !more {
        return Err(NoSuchElement);
      }
      assert pos < |deque.nodes|;
      if currentNode == null {
        currentNode := deque.first;
      } else {
        assert currentNode.next == deque.nodes[pos];
        currentNode := currentNode.next;
      }
      pos := pos + 1;
      r := Ok(currentNode.item);
    }
  }

  /** The fail-fast iterator, last to first. While the deque is unmodified its
      cursor is the node `pos` places from the end. */
  class DescItr<E(==)> {
    const deque: ASDL2021Deque<E>
    var currentNode: Node?<E>
    var expectedChanges: int
    ghost var pos: nat

    ghost predicate Valid()
      reads this, deque, deque.Repr
    {
      && deque.Valid()
      && expectedChanges <= deque.actualChanges
      && (expectedChanges == deque.actualChanges ==>
            && pos <= |deque.nodes|
            && currentNode == if pos == 0 then null else deque.nodes[|deque.nodes| - pos])
    }

    constructor (d: ASDL2021Deque<E>)
      requires d.Valid()
      ensures Valid() && deque == d && pos == 0 && expectedChanges == d.actualChanges
    {
      deque := d;
      currentNode := null;
      expectedChanges := d.actualChanges;
      pos := 0;
    }

    method HasNext() returns (b: bool)
      requires Valid()
      ensures expectedChanges == deque.actualChanges ==> (b <==> pos < |deque.Contents|)
    {
      if currentNode == null {
        b := deque.size != 0;
      } else if expectedChanges == deque.actualChanges {
        assert pos < |deque.nodes| ==> currentNode.prev == deque.nodes[|deque.nodes| - pos - 1];
        b := currentNode.prev != null;
      } else {
        b := currentNode.prev != null;
      }
    }

    method Next() returns (r: Result<E>)
      requires Valid()
      modifies this
      ensures Valid() && expectedChanges == old(expectedChanges)
      ensures old(expectedChanges) < deque.actualChanges ==> r == Err(ConcurrentModification) && pos == old(pos)
      ensures old(expectedChanges) == deque.actualChanges && old(pos) == |deque.Contents| ==>
        r == Err(NoSuchElement) && pos == old(pos)
      ensures old(expectedChanges) == deque.actualChanges && old(pos) < |deque.Contents| ==>
        r == Ok(deque.Contents[|deque.Contents| - 1 - old(pos)]) && pos == old(pos) + 1
    {
      if deque.actualChanges > expectedChanges {
        return Err(ConcurrentModification);
      }
      var more := HasNext();
      if !more {
        return Err(NoSuchElement);
      }
      assert pos < |deque.nodes|;
      if currentNode == null {
        currentNode := deque.last;
      } else {
        assert currentNode.prev == deque.nodes[|deque.nodes| - pos - 1];
        currentNode := currentNode.prev;
      }
      pos := pos + 1;
      r := Ok(currentNode.item);
    }
  }
}
