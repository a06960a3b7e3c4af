/** Container helpers of the routing node: the optional value that stands for a
    Java null, stream filtering and partitioning, a map with an iteration order
    (Java's Map as the node walks it), and the two map helpers of the node. */
module Collections {

  datatype Option<T> = None | Some(value: T)

  ghost predicate Distinct<T>(s: seq<T>) {
    forall i, j :: 0 <= i < j < |s| ==> s[i] != s[j]
  }

  /** `s` lists every element of `keys` exactly once. */
  ghost predicate Enumerates<T(!new)>(s: seq<T>, keys: set<T>) {
    Distinct(s) && (forall k :: k in s <==> k in keys)
  }

  /** The elements of `xs` on which `p` yields `b`, in their original order
      (a stream filter, and one half of Collectors.partitioningBy). */
  function Select<T(!new)>(xs: seq<T>, p: T -> bool, b: bool): (r: seq<T>)
    ensures |r| <= |xs|
    ensures forall x :: x in r <==> x in xs && p(x) == b
    ensures forall i :: 0 <= i < |r| ==> p(r[i]) == b
  {
    if xs == [] then []
    else (if p(xs[0]) == b then [xs[0]] else []) + Select(xs[1..], p, b)
  }

  lemma {:induction false} SelectKeepsDistinct<T(!new)>(xs: seq<T>, p: T -> bool, b: bool)
    ensures Distinct(xs) ==> Distinct(Select(xs, p, b))
  {
    if xs != [] && Distinct(xs) {
      assert Distinct(xs[1..]) by {
        forall i, j | 0 <= i < j < |xs[1..]| ensures xs[1..][i] != xs[1..][j] {
          assert xs[1..][i] == xs[i + 1] && xs[1..][j] == xs[j + 1];
        }
      }
      SelectKeepsDistinct(xs[1..], p, b);
      var rest := Select(xs[1..], p, b);
      assert xs[0] !in xs[1..];
      assert xs[0] !in rest;
    }
  }

  lemma {:induction false} SelectSplits<T(!new)>(xs: seq<T>, p: T -> bool)
    ensures multiset(Select(xs, p, true)) + multiset(Select(xs, p, false)) == multiset(xs)
  {
    if xs != [] {
      var rest := xs[1..];
      SelectSplits(rest, p);
      assert xs == [xs[0]] + rest;
      assert Select(xs, p, true) == (if p(xs[0]) then [xs[0]] else []) + Select(rest, p, true);
      assert Select(xs, p, false) == (if p(xs[0]) then [] else [xs[0]]) + Select(rest, p, false);
      assert multiset(xs) == multiset([xs[0]]) + multiset(rest);
    }
  }

  /** partition(predicate, reverse, values): partitioningBy on the (possibly
      negated) predicate, whose map yields the `false` group first.  So the
      values on which `p` equals `reverse` come first, each group in its
      original order. */
  function Partition<T(!new)>(p: T -> bool, reverse: bool, xs: seq<T>): (r: seq<T>)
    ensures multiset(r) == multiset(xs)
    ensures |r| == |xs|
    ensures forall i, j :: 0 <= i < j < |r| && p(r[i]) != reverse ==> p(r[j]) != reverse
  {
    SelectSplits(xs, p);
    var first, second := Select(xs, p, reverse), Select(xs, p, !reverse);
    assert multiset(first + second) == multiset(xs);
    assert |first + second| == |multiset(first + second)|;
    first + second
  }

  /** A Java map as the routing node uses it: its entries `at` and the order
      `order` in which an iteration over it visits the keys. */
  datatype Table<V> = Table(order: seq<int>, at: map<int, V>) {

    ghost predicate Valid() {
      Enumerates(order, at.Keys)
    }

    /** put: replaces the value of a present key in place, or adds the key
        at the end of the iteration order. */
    function Put(k: int, v: V): (t: Table<V>)
      ensures t.at == at[k := v]
      ensures Valid() ==> t.Valid()
      ensures k in at ==> t.order == order
    {
      if k in at then Table(order, at[k := v])
      else Table(order + [k], at[k := v])
    }

    /** Iterator.remove / Map.remove of one key. */
    function Remove(k: int): (t: Table<V>)
      ensures t.at == at - {k}
      ensures Valid() ==> t.Valid()
    {
      var o := Select(order, x => x != k, true);
      SelectKeepsDistinct(order, x => x != k, true);
      Table(o, at - {k})
    }

    /** removeIf with the negation of `keep`: the entries whose value keeps. */
    function Retain(keep: V -> bool): (t: Table<V>)
      ensures forall k :: k in t.at <==> k in at && keep(at[k])
      ensures forall k :: k in t.at ==> t.at[k] == at[k]
      ensures Valid() ==> t.Valid()
    {
      var p := k => k in at && keep(at[k]);
      var o := Select(order, p, true);
      SelectKeepsDistinct(order, p, true);
      Table(o, map k | k in at && keep(at[k]) :: at[k])
    }
  }

  /** getOrPut: the value stored at `k`, inserting `v` first when absent. */
  function GetOrPut<V>(m: Table<V>, k: int, v: V): (r: (Table<V>, V))
    ensures k in r.0.at && r.0.at[k] == r.1
    ensures r.0.at.Keys == m.at.Keys + {k}
    ensures forall j :: j in m.at ==> r.0.at[j] == m.at[j]
    ensures k !in m.at ==> r.1 == v
    ensures m.Valid() ==> r.0.Valid()
  {
    if k in m.at then (m, m.at[k]) else (m.Put(k, v), v)
  }

  /** putIfAbsent: inserts `v` at `k` only when `k` is absent and reports
      whether it did. */
  function PutIfAbsent<V>(m: Table<V>, k: int, v: V): (r: (Table<V>, bool))
    ensures r.1 <==> k !in m.at
    ensures r.0.at.Keys == m.at.Keys + {k}
    ensures forall j :: j in m.at ==> r.0.at[j] == m.at[j]
    ensures r.1 ==> r.0.at[k] == v
    ensures m.Valid() ==> r.0.Valid()
  {
    if k in m.at then (m, false) else (m.Put(k, v), true)
  }
}
