/**
 * Bracket nesting in text: scanning left to right, each opening character
 * raises the depth and each closing one lowers it. Text is balanced when the
 * depth never drops below zero and ends where it started. The LaTeX printer
 * keeps both its braces and its parentheses balanced in this sense.
 */
module Brackets {
  import opened Text

  /** The change of depth one character makes. */
  function Delta(c: char, open: char, close: char): int {
    if c == open then 1 else if c == close then -1 else 0
  }

  /** Scanning s from depth d never goes below zero and ends at depth d'. */
  predicate Reach(s: string, open: char, close: char, d: int, d': int)
    decreases |s|
  {
    if |s| == 0 then d == d'
    else d + Delta(s[0], open, close) >= 0 && Reach(s[1..], open, close, d + Delta(s[0], open, close), d')
  }

  predicate Balanced(s: string, open: char, close: char) {
    Reach(s, open, close, 0, 0)
  }

  /** Text containing neither bracket character. */
  predicate Free(s: string, open: char, close: char) {
    forall i :: 0 <= i < |s| ==> s[i] != open && s[i] != close
  }

  /** Text without brackets leaves the depth where it is. */
  lemma {:induction false} ReachFree(s: string, open: char, close: char, d: int)
    requires Free(s, open, close) && d >= 0
    ensures Reach(s, open, close, d, d)
    decreases |s|
  {
    if |s| > 0 {
      assert Free(s[1..], open, close) by {
        assert forall i :: 0 <= i < |s| - 1 ==> s[1..][i] == s[i + 1];
      }
      ReachFree(s[1..], open, close, d);
    }
  }

  lemma Front<T>(a: seq<T>, b: seq<T>)
    requires |a| > 0
    ensures (a + b)[0] == a[0] && (a + b)[1..] == a[1..] + b
  {
  }

  /** Scans compose: a from d1 to d2, then b from d2 to d3. */
  lemma {:induction false} ReachAppend(a: string, b: string, open: char, close: char, d1: int, d2: int, d3: int)
    requires Reach(a, open, close, d1, d2) && Reach(b, open, close, d2, d3)
    ensures Reach(a + b, open, close, d1, d3)
    decreases |a|
  {
    if |a| == 0 {
      assert a + b == b;
    } else {
      Front(a, b);
      ReachAppend(a[1..], b, open, close, d1 + Delta(a[0], open, close), d2, d3);
    }
  }

  /** A scan starting deeper stays deeper by the same amount. */
  lemma {:induction false} ReachShift(s: string, open: char, close: char, d: int, d': int, k: nat)
    requires Reach(s, open, close, d, d')
    ensures Reach(s, open, close, d + k, d' + k)
    decreases |s|
  {
    if |s| > 0 {
      ReachShift(s[1..], open, close, d + Delta(s[0], open, close), d', k);
    }
  }

  /** A single character moves the depth by its own change. */
  lemma ReachChar(c: char, open: char, close: char, d: int)
    requires d + Delta(c, open, close) >= 0
    ensures Reach([c], open, close, d, d + Delta(c, open, close))
  {
    assert [c][1..] == [];
  }

  /** Balanced text between a left part that opens k levels and a right part that closes them. */
  lemma Enclosed(l: string, s: string, r: string, open: char, close: char, k: nat)
    requires Reach(l, open, close, 0, k) && Balanced(s, open, close) && Reach(r, open, close, k, 0)
    ensures Balanced(l + s + r, open, close)
  {
    ReachShift(s, open, close, 0, 0, k);
    ReachAppend(l, s, open, close, 0, k, k);
    ReachAppend(l + s, r, open, close, 0, k, 0);
  }

  lemma BalancedAppend(a: string, b: string, open: char, close: char)
    requires Balanced(a, open, close) && Balanced(b, open, close)
    ensures Balanced(a + b, open, close)
  {
    ReachAppend(a, b, open, close, 0, 0, 0);
  }

  /** Balanced parts joined by a balanced separator give balanced text. */
  lemma {:induction false} JoinBalanced(parts: seq<string>, sep: string, open: char, close: char)
    requires forall i :: 0 <= i < |parts| ==> Balanced(parts[i], open, close)
    requires Balanced(sep, open, close)
    ensures Balanced(Join(parts, sep), open, close)
    decreases |parts|
  {
    if |parts| == 0 {
      assert Reach("", open, close, 0, 0);
    } else if |parts| > 1 {
      var init := parts[..|parts| - 1];
      assert forall i :: 0 <= i < |init| ==> init[i] == parts[i];
      JoinBalanced(init, sep, open, close);
      BalancedAppend(Join(init, sep), sep, open, close);
      BalancedAppend(Join(init, sep) + sep, parts[|parts| - 1], open, close);
    }
  }

  /** "((x)" is not balanced: it ends one level deep. */
  lemma UnclosedExample()
    ensures !Balanced("((x)", '(', ')')
  {
    assert "((x)"[1..] == "(x)";
    assert "(x)"[1..] == "x)";
    assert "x)"[1..] == ")";
    assert ")"[1..] == "";
  }
}
