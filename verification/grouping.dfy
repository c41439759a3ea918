/**
 * Grouping (key, value) pairs by key, as the collector does with a
 * `HashMap<Expression, List<Expression>>`: `putIfAbsent(k, new list)`
 * followed by `get(k).add(v)` for every pair. The iteration order of a hash
 * map is unspecified, so the groups are kept in order of first arrival and
 * everything stated about them is independent of that order: the groups
 * hold exactly the pairs filed, with their multiplicities.
 */
module Grouping {
  /** Keys with the values filed under them, in order of first arrival. */
  type Groups<K, V> = seq<(K, seq<V>)>

  /** The position of key k, or |g| when no group has that key. */
  function Find<K(==), V>(g: Groups<K, V>, k: K): (j: nat)
    ensures j <= |g|
    ensures j < |g| ==> g[j].0 == k
    ensures forall i :: 0 <= i < j ==> g[i].0 != k
  {
    if |g| == 0 then 0
    else if g[0].0 == k then 0
    else
      var j := Find(g[1..], k);
      assert forall i :: 1 <= i < 1 + j ==> g[i].0 == g[1..][i - 1].0;
      1 + j
  }

  /** `putIfAbsent(k, new list)` followed by `get(k).add(v)`. */
  function File<K(==), V>(g: Groups<K, V>, k: K, v: V): Groups<K, V> {
    var j := Find(g, k);
    if j == |g| then g + [(k, [v])] else g[j := (k, g[j].1 + [v])]
  }

  /** The filing loop over all pairs, in order. */
  function GroupAll<K(==), V>(pairs: seq<(K, V)>): Groups<K, V> {
    if |pairs| == 0 then []
    else
      var last := pairs[|pairs| - 1];
      File(GroupAll(pairs[..|pairs| - 1]), last.0, last.1)
  }

  /** The pairs a group stands for. */
  function Members<K, V>(k: K, vs: seq<V>): (r: seq<(K, V)>)
    ensures |r| == |vs| && forall i :: 0 <= i < |vs| ==> r[i] == (k, vs[i])
  {
    seq(|vs|, i requires 0 <= i < |vs| => (k, vs[i]))
  }

  /** The pairs all groups stand for, group by group. */
  function Ungroup<K, V>(g: Groups<K, V>): seq<(K, V)> {
    if |g| == 0 then [] else Ungroup(g[..|g| - 1]) + Members(g[|g| - 1].0, g[|g| - 1].1)
  }

  /** Distinct keys and no empty group. */
  predicate WellGrouped<K(==), V>(g: Groups<K, V>) {
    && (forall i, j :: 0 <= i < j < |g| ==> g[i].0 != g[j].0)
    && (forall i :: 0 <= i < |g| ==> |g[i].1| >= 1)
  }

  /**
   * g files exactly the pairs, each key once and no group empty: the hash
   * map's contents, listed in any iteration order.
   */
  predicate Regroups<K(==), V(==)>(g: Groups<K, V>, pairs: seq<(K, V)>) {
    WellGrouped(g) && multiset(Ungroup(g)) == multiset(pairs)
  }

  // Facts about grouping.

  lemma {:induction false} UngroupAppend<K, V>(a: Groups<K, V>, b: Groups<K, V>)
    ensures Ungroup(a + b) == Ungroup(a) + Ungroup(b)
    decreases |b|
  {
    if |b| == 0 {
      assert a + b == a;
    } else {
      var init, last := b[..|b| - 1], b[|b| - 1];
      assert (a + b)[..|a + b| - 1] == a + init;
      assert (a + b)[|a + b| - 1] == last;
      UngroupAppend(a, init);
      ConcatAssoc(Ungroup(a), Ungroup(init), Members(last.0, last.1));
    }
  }

  lemma ConcatAssoc<T>(x: seq<T>, y: seq<T>, z: seq<T>)
    ensures (x + y) + z == x + (y + z)
  {
  }

  /** Ungrouping around the group at j. */
  lemma UngroupSplit<K, V>(g: Groups<K, V>, j: nat)
    requires j < |g|
    ensures Ungroup(g) == Ungroup(g[..j]) + (Members(g[j].0, g[j].1) + Ungroup(g[j + 1..]))
  {
    var t := g[j..];
    assert g == g[..j] + t;
    UngroupAppend(g[..j], t);
    UngroupCons(t);
    assert t[1..] == g[j + 1..];
  }

  /** Ungrouping a non-empty list: its first group, then the rest. */
  lemma UngroupCons<K, V>(t: Groups<K, V>)
    requires |t| > 0
    ensures Ungroup(t) == Members(t[0].0, t[0].1) + Ungroup(t[1..])
  {
    assert t == [t[0]] + t[1..];
    UngroupAppend([t[0]], t[1..]);
    UngroupSingle(t[0]);
  }

  lemma UngroupSingle<K, V>(x: (K, seq<V>))
    ensures Ungroup([x]) == Members(x.0, x.1)
  {
    assert [x][..0] == [];
  }

  /** Filing under a new key appends a group of one. */
  lemma FileNew<K, V>(g: Groups<K, V>, k: K, v: V)
    requires WellGrouped(g) && Find(g, k) == |g|
    ensures WellGrouped(File(g, k, v))
    ensures multiset(Ungroup(File(g, k, v))) == multiset(Ungroup(g)) + multiset{(k, v)}
  {
    FileNewPairs(g, k, v);
  }

  lemma FileNewPairs<K, V>(g: Groups<K, V>, k: K, v: V)
    ensures Ungroup(g + [(k, [v])]) == Ungroup(g) + [(k, v)]
  {
    UngroupAppend(g, [(k, [v])]);
    UngroupSingle((k, [v]));
    assert Members(k, [v]) == [(k, v)];
  }

  lemma MembersAppend<K, V>(k: K, vs: seq<V>, v: V)
    ensures Members(k, vs + [v]) == Members(k, vs) + [(k, v)]
  {
  }

  /** Replacing the values of group j keeps the groups before and after it. */
  lemma UpdateSlices<K, V>(g: Groups<K, V>, j: nat, x: (K, seq<V>))
    requires j < |g|
    ensures g[j := x][..j] == g[..j] && g[j := x][j + 1..] == g[j + 1..]
  {
  }

  /** Filing under the key of group j keeps the keys and lengthens group j. */
  lemma FileExistingGrouped<K, V>(g: Groups<K, V>, k: K, v: V, j: nat)
    requires WellGrouped(g) && j == Find(g, k) && j < |g|
    ensures WellGrouped(File(g, k, v))
  {
    var g' := File(g, k, v);
    assert forall i :: 0 <= i < |g| ==> g'[i].0 == g[i].0 && |g'[i].1| >= |g[i].1|;
  }

  /** Filing under the key of group j adds the one pair. */
  lemma FileExistingPairs<K, V>(g: Groups<K, V>, k: K, v: V, j: nat)
    requires j == Find(g, k) && j < |g|
    ensures multiset(Ungroup(File(g, k, v))) == multiset(Ungroup(g)) + multiset{(k, v)}
  {
    var vs := g[j].1;
    var g' := g[j := (k, vs + [v])];
    assert File(g, k, v) == g';
    UpdateSlices(g, j, (k, vs + [v]));
    UngroupSplit(g, j);
    UngroupSplit(g', j);
    var u1, ms, u2 := Ungroup(g[..j]), Members(k, vs), Ungroup(g[j + 1..]);
    MembersAppend(k, vs, v);
    assert Ungroup(g') == u1 + ((ms + [(k, v)]) + u2);
    MultisetInsert(u1, ms, (k, v), u2);
  }

  lemma MultisetInsert<T>(a: seq<T>, b: seq<T>, x: T, c: seq<T>)
    ensures multiset(a + ((b + [x]) + c)) == multiset(a + (b + c)) + multiset{x}
  {
  }

  /** Filing adds exactly the one pair, keeps the keys distinct and empties nothing. */
  lemma FileFacts<K, V>(g: Groups<K, V>, k: K, v: V)
    requires WellGrouped(g)
    ensures WellGrouped(File(g, k, v))
    ensures multiset(Ungroup(File(g, k, v))) == multiset(Ungroup(g)) + multiset{(k, v)}
  {
    var j := Find(g, k);
    if j == |g| {
      FileNew(g, k, v);
    } else {
      FileExistingGrouped(g, k, v, j);
      FileExistingPairs(g, k, v, j);
    }
  }

  lemma MultisetLast<T>(xs: seq<T>)
    requires |xs| > 0
    ensures multiset(xs) == multiset(xs[..|xs| - 1]) + multiset{xs[|xs| - 1]}
  {
    assert xs == xs[..|xs| - 1] + [xs[|xs| - 1]];
  }

  /** Grouping is a regrouping: keys distinct, no group empty, and the same pairs with the same multiplicities. */
  lemma {:induction false} GroupAllFacts<K, V>(pairs: seq<(K, V)>)
    ensures WellGrouped(GroupAll(pairs))
    ensures multiset(Ungroup(GroupAll(pairs))) == multiset(pairs)
  {
    if |pairs| > 0 {
      var init, last := pairs[..|pairs| - 1], pairs[|pairs| - 1];
      GroupAllFacts(init);
      FileFacts(GroupAll(init), last.0, last.1);
      MultisetLast(pairs);
    }
  }

  /** The keys are exactly the keys of the pairs. */
  lemma GroupKeys<K, V>(pairs: seq<(K, V)>, k: K)
    ensures (exists i :: 0 <= i < |GroupAll(pairs)| && GroupAll(pairs)[i].0 == k)
        <==> (exists v :: (k, v) in pairs)
  {
    var g := GroupAll(pairs);
    GroupAllFacts(pairs);
    if i :| 0 <= i < |g| && g[i].0 == k {
      UngroupMember(g, i, 0);
      assert (k, g[i].1[0]) in multiset(pairs);
    }
    if v :| (k, v) in pairs {
      assert (k, v) in multiset(Ungroup(g));
      var i, m := UngroupFind(g, (k, v));
    }
  }

  lemma UngroupMember<K, V>(g: Groups<K, V>, i: nat, m: nat)
    requires i < |g| && m < |g[i].1|
    ensures (g[i].0, g[i].1[m]) in Ungroup(g)
  {
    if i < |g| - 1 {
      UngroupMember(g[..|g| - 1], i, m);
    } else {
      assert Members(g[i].0, g[i].1)[m] == (g[i].0, g[i].1[m]);
    }
  }

  lemma UngroupFind<K, V>(g: Groups<K, V>, p: (K, V)) returns (i: nat, m: nat)
    requires p in Ungroup(g)
    ensures i < |g| && m < |g[i].1| && p == (g[i].0, g[i].1[m])
  {
    var init := g[..|g| - 1];
    if p in Ungroup(init) {
      i, m := UngroupFind(init, p);
    } else {
      var ms := Members(g[|g| - 1].0, g[|g| - 1].1);
      assert p in ms;
      var k :| 0 <= k < |ms| && ms[k] == p;
      i, m := |g| - 1, k;
    }
  }

  /** Every key and value of a group comes from one of the pairs. */
  lemma GroupedFrom<K, V>(pairs: seq<(K, V)>, g: Groups<K, V>, i: nat, m: nat) returns (j: nat)
    requires Regroups(g, pairs)
    requires i < |g| && m < |g[i].1|
    ensures j < |pairs| && pairs[j] == (g[i].0, g[i].1[m])
  {
    UngroupMember(g, i, m);
    assert (g[i].0, g[i].1[m]) in multiset(pairs);
    j :| 0 <= j < |pairs| && pairs[j] == (g[i].0, g[i].1[m]);
  }

  /** Every pair lands in some group. */
  lemma GroupedInto<K, V>(pairs: seq<(K, V)>, g: Groups<K, V>, j: nat) returns (i: nat, m: nat)
    requires Regroups(g, pairs)
    requires j < |pairs|
    ensures i < |g| && m < |g[i].1|
    ensures pairs[j] == (g[i].0, g[i].1[m])
  {
    assert pairs[j] in multiset(Ungroup(g));
    i, m := UngroupFind(g, pairs[j]);
  }
}
