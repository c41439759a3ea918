/** String joining as `Collectors.joining` performs it. */
module Text {

  /** The parts separated by `sep`; the empty list joins to the empty string. */
  function Join(parts: seq<string>, sep: string): string {
    if |parts| == 0 then ""
    else if |parts| == 1 then parts[0]
    else Join(parts[..|parts| - 1], sep) + sep + parts[|parts| - 1]
  }

  /** `Collectors.joining(sep, prefix, suffix)`. */
  function JoinWrapped(parts: seq<string>, sep: string, prefix: string, suffix: string): string {
    prefix + Join(parts, sep) + suffix
  }

  lemma JoinTwo(a: string, b: string, sep: string)
    ensures Join([a, b], sep) == a + sep + b
  {
    assert [a, b][..1] == [a];
  }

  /** Each part preceded by sep: the tail of a joined list, read from the front. */
  function Prefixed(parts: seq<string>, sep: string): string {
    if |parts| == 0 then "" else sep + parts[0] + Prefixed(parts[1..], sep)
  }

  lemma {:induction false} PrefixedSnoc(parts: seq<string>, x: string, sep: string)
    ensures Prefixed(parts + [x], sep) == Prefixed(parts, sep) + sep + x
  {
    if |parts| > 0 {
      assert (parts + [x])[1..] == parts[1..] + [x];
      PrefixedSnoc(parts[1..], x, sep);
    }
  }

  /** A joined list is its first part followed by every other part with its separator. */
  lemma {:induction false} JoinFront(parts: seq<string>, sep: string)
    requires |parts| > 0
    ensures Join(parts, sep) == parts[0] + Prefixed(parts[1..], sep)
  {
    if |parts| > 1 {
      var init := parts[..|parts| - 1];
      JoinFront(init, sep);
      assert parts[1..] == init[1..] + [parts[|parts| - 1]];
      PrefixedSnoc(init[1..], parts[|parts| - 1], sep);
    }
  }

  /** A concatenation split where its first part ends. */
  lemma SplitAt<T>(a: seq<T>, b: seq<T>)
    ensures (a + b)[..|a|] == a && (a + b)[|a|..] == b
  {
  }

  lemma Assoc<T>(a: seq<T>, b: seq<T>, c: seq<T>)
    ensures a + b + c == a + (b + c)
  {
  }

  lemma Cons<T>(s: seq<T>)
    requires |s| > 0
    ensures [s[0]] + s[1..] == s
  {
  }
}
