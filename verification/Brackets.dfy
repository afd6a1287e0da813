/** The balanced-brackets validator of MP1/BalancedParenthesesChecker.java:
    a validation pass over the characters, then a scan that pushes openers on
    a deque used as a stack and pops one for every closer. Blanks (space, tab,
    newline) are ignored. */
module Brackets {
  import opened Common
  import opened Deque

  predicate IsOpen(c: char) { c == '(' || c == '[' || c == '{' }

  predicate IsClose(c: char) { c == ')' || c == ']' || c == '}' }

  predicate IsBlank(c: char) { c == ' ' || c == '\t' || c == '\n' }

  /** The characters the validation pass lets through. */
  predicate Allowed(c: char) { IsOpen(c) || IsClose(c) || IsBlank(c) }

  /** The opener that a closer matches. */
  function Opener(c: char): char
    requires IsClose(c)
  {
    if c == ')' then '(' else if c == ']' then '[' else '{'
  }

  /** The word of brackets of `s`: its characters other than blanks. */
  function Bracketed(s: string): (w: string)
    ensures forall i :: 0 <= i < |w| ==> !IsBlank(w[i])
    ensures (forall i :: 0 <= i < |s| ==> Allowed(s[i])) ==>
              forall i :: 0 <= i < |w| ==> IsOpen(w[i]) || IsClose(w[i])
  {
    if s == [] then []
    else if IsBlank(s[0]) then Bracketed(s[1..])
    else [s[0]] + Bracketed(s[1..])
  }

  /** The well-nested words over three kinds of brackets (the Dyck language):
      the empty word, or an opener, a well-nested word, the matching closer
      and another well-nested word. */
  ghost predicate Dyck(w: string)
    decreases |w|
  {
    || w == []
    || (&& IsOpen(w[0])
        && exists k :: 1 <= k < |w| && IsClose(w[k]) && Opener(w[k]) == w[0]
             && Dyck(w[1..k]) && Dyck(w[k + 1..]))
  }

  /** The checking loop as a function: `st` holds the pending openers, the
      most recent first; None is the early "not balanced" exit (a closer met
      with no pending opener, or with a pending opener of another kind). */
  function Scan(w: string, st: string): Option<string>
  {
    if w == [] then Some(st)
    else if IsOpen(w[0]) then Scan(w[1..], [w[0]] + st)
    else if IsClose(w[0]) then
      if st == [] then None
      else if st[0] == Opener(w[0]) then Scan(w[1..], st[1..])
      else None
    else Scan(w[1..], st)
  }

  /** Scanning a concatenation scans the second part from where the first left off. */
  lemma {:induction false} ScanAppend(x: string, y: string, st: string)
    ensures Scan(x + y, st) == match Scan(x, st) case None => None case Some(t) => Scan(y, t)
    decreases |x|
  {
    if x != [] {
      assert (x + y)[0] == x[0] && (x + y)[1..] == x[1..] + y;
      if IsOpen(x[0]) {
        ScanAppend(x[1..], y, [x[0]] + st);
      } else if IsClose(x[0]) {
        if st != [] && st[0] == Opener(x[0]) {
          ScanAppend(x[1..], y, st[1..]);
        }
      } else {
        ScanAppend(x[1..], y, st);
      }
    } else {
      assert x + y == y;
    }
  }

  /** Blanks do not affect the scan. */
  lemma {:induction false} ScanIgnoresBlanks(s: string, st: string)
    ensures Scan(s, st) == Scan(Bracketed(s), st)
    decreases |s|
  {
    if s != [] {
      if IsBlank(s[0]) {
        ScanIgnoresBlanks(s[1..], st);
      } else {
        var w := Bracketed(s);
        assert w == [s[0]] + Bracketed(s[1..]);
        assert w[0] == s[0] && w[1..] == Bracketed(s[1..]);
        if IsOpen(s[0]) {
          ScanIgnoresBlanks(s[1..], [s[0]] + st);
          assert Scan(w, st) == Scan(w[1..], [s[0]] + st);
        } else if IsClose(s[0]) {
          if st != [] && st[0] == Opener(s[0]) {
            ScanIgnoresBlanks(s[1..], st[1..]);
            assert Scan(w, st) == Scan(w[1..], st[1..]);
          } else {
            assert Scan(w, st) == None;
          }
        } else {
          ScanIgnoresBlanks(s[1..], st);
          assert Scan(w, st) == Scan(w[1..], st);
        }
      }
    }
  }

  /** A closer of the pending opener on top pops it. */
  lemma ScanCloser(x: string, o: char, st: string)
    requires x != [] && IsClose(x[0]) && Opener(x[0]) == o
    ensures Scan(x, [o] + st) == Scan(x[1..], st)
  {
    assert ([o] + st)[0] == o && ([o] + st)[1..] == st;
  }

  /** An opener, a part that scans back to the opener on top, the matching
      closer and a part that scans back to where it started: the whole word
      scans back to where it started. */
  lemma ScanMatched(w: string, st: string, k: nat)
    requires 1 <= k < |w| && IsOpen(w[0]) && IsClose(w[k]) && Opener(w[k]) == w[0]
    requires Scan(w[1..k], [w[0]] + st) == Some([w[0]] + st) && Scan(w[k + 1..], st) == Some(st)
    ensures Scan(w, st) == Some(st)
  {
    var o, tail := w[0], w[k..];
    assert Scan(w, st) == Scan(w[1..], [o] + st);
    assert w[1..] == w[1..k] + tail;
    ScanAppend(w[1..k], tail, [o] + st);
    assert tail[0] == w[k] && tail[1..] == w[k + 1..];
    ScanCloser(tail, o, st);
  }

  /** A well-nested word leaves the pending openers as they were. */
  lemma {:induction false} DyckScan(w: string, st: string)
    requires Dyck(w)
    ensures Scan(w, st) == Some(st)
    decreases |w|
  {
    if w != [] {
      var k :| 1 <= k < |w| && IsClose(w[k]) && Opener(w[k]) == w[0]
                && Dyck(w[1..k]) && Dyck(w[k + 1..]);
      DyckScan(w[1..k], [w[0]] + st);
      DyckScan(w[k + 1..], st);
      ScanMatched(w, st, k);
    }
  }

  /** If the scan of `x` starting from `t` above the opener `o` ends with no
      pending opener, then some position k of `x` holds the closer of `o`:
      `x[..k]` closes exactly `t` and `x[k+1..]` is balanced on its own. */
  lemma {:induction false} ScanFirstReturn(x: string, t: string, o: char) returns (k: nat)
    requires Scan(x, t + [o]) == Some([])
    ensures k < |x| && IsClose(x[k]) && Opener(x[k]) == o
    ensures Scan(x[..k], t) == Some([]) && Scan(x[k + 1..], []) == Some([])
    decreases |x|
  {
    if x == [] {
      assert false;
    }
    var c := x[0];
    assert x[..1] == [c];
    if IsOpen(c) {
      assert [c] + (t + [o]) == ([c] + t) + [o];
      var k' := ScanFirstReturn(x[1..], [c] + t, o);
      k := k' + 1;
      assert x[..k][0] == c && x[..k][1..] == x[1..][..k'];
      assert x[k + 1..] == x[1..][k' + 1..];
    } else if IsClose(c) {
      if t == [] {
        assert t + [o] == [o] && [o][1..] == [];
        k := 0;
        assert x[..k] == [] && x[k + 1..] == x[1..];
      } else {
        assert (t + [o])[0] == t[0] && (t + [o])[1..] == t[1..] + [o];
        var k' := ScanFirstReturn(x[1..], t[1..], o);
        k := k' + 1;
        assert x[..k][0] == c && x[..k][1..] == x[1..][..k'];
        assert x[k + 1..] == x[1..][k' + 1..];
      }
    } else {
      var k' := ScanFirstReturn(x[1..], t, o);
      k := k' + 1;
      assert x[..k][0] == c && x[..k][1..] == x[1..][..k'];
      assert x[k + 1..] == x[1..][k' + 1..];
    }
  }

  /** A blank-free word the scan accepts is well nested. */
  lemma {:induction false} ScanDyck(w: string)
    requires forall i :: 0 <= i < |w| ==> IsOpen(w[i]) || IsClose(w[i])
    requires Scan(w, []) == Some([])
    ensures Dyck(w)
    decreases |w|
  {
    if w != [] {
      var c := w[0];
      assert IsOpen(c);
      assert [c] + [] == [] + [c];
      var j := ScanFirstReturn(w[1..], [], c);
      var k := j + 1;
      assert w[1..k] == w[1..][..j] && w[k + 1..] == w[1..][j + 1..];
      ScanDyck(w[1..k]);
      ScanDyck(w[k + 1..]);
      assert IsClose(w[k]) && Opener(w[k]) == w[0];
    }
  }

  /** On a string that passes validation, the scan accepts exactly when its
      brackets are well nested. */
  lemma ScanAcceptsDyck(s: string)
    requires forall i :: 0 <= i < |s| ==> Allowed(s[i])
    ensures Scan(s, []) == Some([]) <==> Dyck(Bracketed(s))
  {
    ScanIgnoresBlanks(s, []);
    var w := Bracketed(s);
    if Dyck(w) {
      DyckScan(w, []);
    }
    if Scan(w, []) == Some([]) {
      ScanDyck(w);
    }
  }

  class BalancedParenthesesChecker {
    /** The deque used as a stack of pending openers. */
    const stack: ASDL2021Deque<char>

    ghost predicate Valid()
      reads this, stack, stack.Repr
    {
      stack.Valid()
    }

    constructor ()
      ensures Valid() && fresh(stack.Repr)
    {
      stack := new ASDL2021Deque<char>();
    }

    /** Every character is validated first; then the scan runs on a cleared
        stack, so the result depends on `s` alone. */
    method Check(s: string) returns (r: Result<bool>)
      requires Valid()
      modifies stack.Repr
      ensures Valid() && fresh(stack.Repr - old(stack.Repr))
      ensures (exists i :: 0 <= i < |s| && !Allowed(s[i])) ==> r == Err(IllegalArgument)
      ensures (forall i :: 0 <= i < |s| ==> Allowed(s[i])) ==> r == Ok(Dyck(Bracketed(s)))
    {
      for i := 0 to |s|
        invariant forall j :: 0 <= j < i ==> Allowed(s[j])
      {
        if !Allowed(s[i]) {
          return Err(IllegalArgument);
        }
      }
      stack.Clear();
      var i := 0;
      while i < |s|
        invariant stack.Valid() && fresh(stack.Repr - old(stack.Repr))
        invariant 0 <= i <= |s|
        invariant Scan(s[..i], []) == Some(stack.Contents)
      {
        ScanAppend(s[..i], [s[i]], []);
        assert s[..i + 1] == s[..i] + [s[i]];
        ghost var st := stack.Contents;
        var c := s[i];
        var empty := stack.IsEmpty();
        if c == '{' || c == '[' || c == '(' {
          var o := stack.Push(Some(c));
        } else if (c == '}' || c == ']' || c == ')') && empty {
          ScanAppend(s[..i + 1], s[i + 1..], []);
          assert s[..i + 1] + s[i + 1..] == s;
          ScanAcceptsDyck(s);
          return Ok(false);
        } else if !empty {
          if c == '}' || c == ']' || c == ')' {
            var top := stack.Pop();
            if top.value != Opener(c) {
              ScanAppend(s[..i + 1], s[i + 1..], []);
              assert s[..i + 1] + s[i + 1..] == s;
              ScanAcceptsDyck(s);
              return Ok(false);
            }
          }
        }
        i := i + 1;
      }
      assert s[..i] == s;
      ScanAcceptsDyck(s);
      var empty := stack.IsEmpty();
      r := Ok(empty);
    }
  }
}
