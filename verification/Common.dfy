/** Values shared by every component: the Java exceptions the operations can
    raise, and failure-carrying results for operations that may raise them. */
module Common {

  /** The Java exception classes raised by the modelled operations. */
  datatype Exception =
    | NullPointer
    | IllegalArgument
    | NoSuchElement
    | IndexOutOfBounds
    | UnsupportedOperation
    | ConcurrentModification

  /** A Java reference that may be null. */
  datatype Option<+T> = None | Some(value: T)

  /** The outcome of a Java method that returns a value or throws. */
  datatype Result<+T> = Ok(value: T) | Err(error: Exception)

  /** The outcome of a Java method returning void: it completes or throws. */
  datatype Outcome = Pass | Fail(error: Exception)

  /** A sequence of distinct elements has as many elements as positions. */
  lemma {:induction false} DistinctElements<T>(s: seq<T>)
    requires forall i, j :: 0 <= i < j < |s| ==> s[i] != s[j]
    ensures |set x | x in s| == |s|
  {
    if s != [] {
      var init, last := s[..|s| - 1], s[|s| - 1];
      DistinctElements(init);
      assert s == init + [last];
      assert (set x | x in s) == (set x | x in init) + {last};
      assert last !in init;
    }
  }

  /** Taking an element out of a finite set makes it smaller: the measure of
      the loops that pick and remove one element per step. */
  lemma RemoveShrinks<T>(s: set<T>, x: T)
    requires x in s
    ensures |s - {x}| < |s|
  {
    assert s == (s - {x}) + {x};
  }

  /** Moving an element from the pending part `todo` of a loop to its
      finished part `done` keeps their union and their disjointness, and
      shrinks `todo`. */
  lemma MoveOne<T>(done: set<T>, todo: set<T>, x: T)
    requires x in todo && done !! todo
    ensures (done + {x}) + (todo - {x}) == done + todo && (done + {x}) !! (todo - {x})
    ensures |todo - {x}| < |todo|
  {
    RemoveShrinks(todo, x);
  }

  /** No element occurs twice in `s`. */
  ghost predicate Distinct<T>(s: seq<T>)
  {
    forall i, j :: 0 <= i < j < |s| ==> s[i] != s[j]
  }

  /** Two sequences without repetitions and without a common element make a
      sequence without repetitions. */
  lemma DistinctAppend<T>(a: seq<T>, b: seq<T>)
    requires Distinct(a) && Distinct(b) && forall x :: x in a ==> x !in b
    ensures Distinct(a + b)
  {
    var s := a + b;
    forall i, j | 0 <= i < j < |s| ensures s[i] != s[j] {
      if i >= |a| {
        assert s[i] == b[i - |a|] && s[j] == b[j - |a|];
      } else if j >= |a| {
        assert s[i] == a[i] && a[i] in a && s[j] == b[j - |a|];
      } else {
        assert s[i] == a[i] && s[j] == a[j];
      }
    }
  }

  /** Concatenation is associative. */
  lemma AppendAssoc<T>(a: seq<T>, b: seq<T>, c: seq<T>)
    ensures a + (b + c) == (a + b) + c
  {
  }
}
