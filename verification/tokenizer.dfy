/**
 * The tokenizer: splits the input into runs of word characters, runs of
 * number characters and single symbol characters, dropping whitespace.
 */
module Tokenizer {

  datatype CharClass = NoClass | Symbol | Word | Number

  /** Java's `isAlphabetic` on the ASCII range; other letters are not modelled. */
  predicate IsLetter(c: char) {
    'a' <= c <= 'z' || 'A' <= c <= 'Z'
  }

  /** Java's `isDigit` on the ASCII range; other decimal digits are not modelled. */
  predicate IsDigitChar(c: char) {
    '0' <= c <= '9'
  }

  /** Java's `isWhitespace` on the ASCII range: space, \t \n \u000B \f \r and \u001C-\u001F. */
  predicate IsWhitespace(c: char) {
    c == ' ' || 9 <= c as int <= 13 || 28 <= c as int <= 31
  }

  /**
   * `getCharacterType` with ASCII character classes: a letter, digit or
   * space outside ASCII falls through to `Symbol` here.
   */
  function ClassOf(c: char): (k: CharClass)
    ensures k == Word <==> IsLetter(c) || c == '\''
    ensures k == Number <==> IsDigitChar(c) || c == '.'
    ensures k == NoClass <==> IsWhitespace(c)
  {
    if IsLetter(c) || c == '\'' then Word
    else if IsDigitChar(c) || c == '.' then Number
    else if IsWhitespace(c) then NoClass
    else Symbol
  }

  /** The loop state: tokens pushed so far, the pending token and its class. */
  datatype Scan = Scan(tokens: seq<string>, current: string, currentClass: CharClass)

  const Start: Scan := Scan([], "", NoClass)

  /** One iteration of the loop: a symbol or a class change ends the pending token. */
  function Step(st: Scan, c: char): Scan {
    var k := ClassOf(c);
    if st.currentClass == Symbol || k != st.currentClass then
      var pushed := if st.currentClass != NoClass then st.tokens + [st.current] else st.tokens;
      Scan(pushed, [c], k)
    else
      Scan(st.tokens, st.current + [c], st.currentClass)
  }

  function Run(st: Scan, s: string): Scan
    decreases |s|
  {
    if |s| == 0 then st else Run(Step(st, s[0]), s[1..])
  }

  /** After the loop, the pending token is pushed unless it is whitespace. */
  function Finish(st: Scan): seq<string> {
    if st.currentClass != NoClass then st.tokens + [st.current] else st.tokens
  }

  /** `tokenize`. */
  function Tokenize(input: string): seq<string> {
    Finish(Run(Start, input))
  }

  // Reference definition: runs read off from the left.

  /** Length of the leading run of characters of class k. */
  function RunLength(s: string, k: CharClass): (n: nat)
    ensures n <= |s|
    ensures forall i :: 0 <= i < n ==> ClassOf(s[i]) == k
    ensures n < |s| ==> ClassOf(s[n]) != k
  {
    if |s| == 0 || ClassOf(s[0]) != k then 0 else 1 + RunLength(s[1..], k)
  }

  /**
   * The tokens as maximal runs: whitespace is skipped, a symbol stands
   * alone, and word and number characters extend to the end of their run.
   */
  function Runs(s: string): seq<string>
    decreases |s|
  {
    if |s| == 0 then []
    else
      var k := ClassOf(s[0]);
      if k == NoClass then Runs(s[1..])
      else if k == Symbol then [s[..1]] + Runs(s[1..])
      else
        var n := RunLength(s, k);
        [s[..n]] + Runs(s[n..])
  }

  /** Continuing a pending word or number token with the rest of its run. */
  lemma {:induction false} RunExtends(st: Scan, s: string)
    requires st.currentClass == Word || st.currentClass == Number
    ensures var n := RunLength(s, st.currentClass);
      Finish(Run(st, s)) == st.tokens + [st.current + s[..n]] + Runs(s[n..])
    decreases |s|, 2
  {
    var k := st.currentClass;
    var n := RunLength(s, k);
    if |s| == 0 {
      assert st.current + s[..n] == st.current;
    } else if ClassOf(s[0]) != k {
      assert n == 0 && s[n..] == s;
      assert st.current + s[..n] == st.current;
      RunEnds(st, s);
    } else {
      var st' := Scan(st.tokens, st.current + [s[0]], k);
      assert Step(st, s[0]) == st';
      RunExtends(st', s[1..]);
      assert RunLength(s[1..], k) == n - 1;
      ExtendSlice(st.current, s, n);
    }
  }

  lemma ExtendSlice<T>(c: seq<T>, s: seq<T>, n: nat)
    requires 1 <= n <= |s|
    ensures c + [s[0]] + s[1..][..n - 1] == c + s[..n] && s[1..][n - 1..] == s[n..]
  {
    assert [s[0]] + s[1..][..n - 1] == s[..n];
  }

  /** A character of another class ends the pending token. */
  lemma {:induction false} RunEnds(st: Scan, s: string)
    requires st.currentClass != NoClass && |s| > 0 && ClassOf(s[0]) != st.currentClass
    ensures Finish(Run(st, s)) == st.tokens + [st.current] + Runs(s)
    decreases |s|, 1
  {
    var pushed := st.tokens + [st.current];
    if ClassOf(s[0]) == NoClass {
      RunFresh(Step(st, s[0]), s[1..]);
    } else {
      assert Step(st, s[0]) == Scan(pushed, [s[0]], ClassOf(s[0]));
      StartToken(pushed, s);
    }
  }

  /** From a whitespace state, the rest of the input yields exactly its runs. */
  lemma {:induction false} RunFresh(st: Scan, s: string)
    requires st.currentClass == NoClass
    ensures Finish(Run(st, s)) == st.tokens + Runs(s)
    decreases |s|, 1
  {
    if |s| > 0 {
      var k := ClassOf(s[0]);
      if k == NoClass {
        RunFresh(Step(st, s[0]), s[1..]);
      } else {
        assert Step(st, s[0]) == Scan(st.tokens, [s[0]], k);
        StartToken(st.tokens, s);
      }
    } else {
      assert Runs(s) == [];
    }
  }

  /** After a symbol, the next character always ends it. */
  lemma {:induction false} RunAfterSymbol(st: Scan, s: string)
    requires st.currentClass == Symbol
    ensures Finish(Run(st, s)) == st.tokens + [st.current] + Runs(s)
    decreases |s|, 1
  {
    if |s| > 0 {
      var k := ClassOf(s[0]);
      var pushed := st.tokens + [st.current];
      if k == NoClass {
        RunFresh(Step(st, s[0]), s[1..]);
      } else {
        assert Step(st, s[0]) == Scan(pushed, [s[0]], k);
        StartToken(pushed, s);
      }
    }
  }

  /** A token started by the first character of s is followed by the runs of s. */
  lemma {:induction false} StartToken(tokens: seq<string>, s: string)
    requires |s| > 0 && ClassOf(s[0]) != NoClass
    ensures Finish(Run(Scan(tokens, [s[0]], ClassOf(s[0])), s[1..])) == tokens + Runs(s)
    decreases |s|, 0
  {
    var k := ClassOf(s[0]);
    var st := Scan(tokens, [s[0]], k);
    if k == Symbol {
      RunAfterSymbol(st, s[1..]);
      assert [s[0]] == s[..1];
      assert Runs(s) == [s[..1]] + Runs(s[1..]);
      AppendAssoc(tokens, s[..1], Runs(s[1..]));
    } else {
      RunExtends(st, s[1..]);
      var n := RunLength(s, k);
      assert RunLength(s[1..], k) == n - 1;
      assert [s[0]] + s[1..][..n - 1] == s[..n];
      assert s[1..][n - 1..] == s[n..];
      assert Runs(s) == [s[..n]] + Runs(s[n..]);
      AppendAssoc(tokens, s[..n], Runs(s[n..]));
    }
  }

  lemma AppendAssoc<T>(a: seq<T>, x: T, b: seq<T>)
    ensures a + [x] + b == a + ([x] + b)
  {
  }

  /** The loop computes exactly the maximal runs. */
  lemma TokenizeIsRuns(input: string)
    ensures Tokenize(input) == Runs(input)
  {
    RunFresh(Start, input);
  }

  /** The input with its whitespace removed. */
  function Compact(s: string): string
    decreases |s|
  {
    if |s| == 0 then "" else (if IsWhitespace(s[0]) then "" else [s[0]]) + Compact(s[1..])
  }

  function Concat(parts: seq<string>): string {
    if |parts| == 0 then "" else parts[0] + Concat(parts[1..])
  }

  /** A token is one symbol, or a non-empty run of word or number characters. */
  predicate WellFormedToken(t: string) {
    |t| > 0 && ClassOf(t[0]) != NoClass
    && (ClassOf(t[0]) == Symbol ==> |t| == 1)
    && forall i :: 0 <= i < |t| ==> ClassOf(t[i]) == ClassOf(t[0])
  }

  lemma {:induction false} RunsProperties(s: string)
    ensures forall i :: 0 <= i < |Runs(s)| ==> WellFormedToken(Runs(s)[i])
    ensures Concat(Runs(s)) == Compact(s)
    decreases |s|
  {
    if |s| > 0 {
      var k := ClassOf(s[0]);
      if k == NoClass {
        RunsProperties(s[1..]);
      } else if k == Symbol {
        RunsProperties(s[1..]);
        assert Runs(s) == [s[..1]] + Runs(s[1..]);
        CompactRun(s, 1, k);
        ConsProperties(s[..1], Runs(s[1..]), Compact(s[1..]));
      } else {
        var n := RunLength(s, k);
        RunsProperties(s[n..]);
        assert Runs(s) == [s[..n]] + Runs(s[n..]);
        CompactRun(s, n, k);
        ConsProperties(s[..n], Runs(s[n..]), Compact(s[n..]));
      }
    }
  }

  /** A well-formed token in front of well-formed tokens spelling c. */
  lemma ConsProperties(t: string, rest: seq<string>, c: string)
    requires WellFormedToken(t) && Concat(rest) == c
    requires forall i :: 0 <= i < |rest| ==> WellFormedToken(rest[i])
    ensures forall i :: 0 <= i < |[t] + rest| ==> WellFormedToken(([t] + rest)[i])
    ensures Concat([t] + rest) == t + c
  {
    assert ([t] + rest)[1..] == rest;
  }

  /** A leading run of non-whitespace characters survives compaction unchanged. */
  lemma {:induction false} CompactRun(s: string, n: nat, k: CharClass)
    requires n <= |s| && k != NoClass
    requires forall i :: 0 <= i < n ==> ClassOf(s[i]) == k
    ensures Compact(s) == s[..n] + Compact(s[n..])
    decreases n
  {
    if n > 0 {
      assert !IsWhitespace(s[0]);
      CompactRun(s[1..], n - 1, k);
      assert s[1..][n - 1..] == s[n..];
      assert [s[0]] + s[1..][..n - 1] == s[..n];
    }
  }

  /** No token is empty, every token is one class, and the tokens spell the input without whitespace. */
  lemma TokenizeProperties(input: string)
    ensures forall i :: 0 <= i < |Tokenize(input)| ==> WellFormedToken(Tokenize(input)[i])
    ensures Concat(Tokenize(input)) == Compact(input)
  {
    TokenizeIsRuns(input);
    RunsProperties(input);
  }

  /** Whitespace separates two number runs; adjacent symbols stay apart. */
  lemma TokenizeExamples()
    ensures Tokenize("2 3") == ["2", "3"]
    ensures Tokenize("((") == ["(", "("]
    ensures Tokenize("3x") == ["3", "x"]
  {
    TokenizeIsRuns("2 3");
    TokenizeIsRuns("((");
    TokenizeIsRuns("3x");
    assert RunLength("2 3", Number) == 1;
    assert "2 3"[1..] == " 3";
    assert " 3"[1..] == "3";
    assert RunLength("3", Number) == 1;
    assert RunLength("3x", Number) == 1;
    assert "3x"[1..] == "x";
    assert RunLength("x", Word) == 1;
    assert "(("[1..] == "(";
  }
}
