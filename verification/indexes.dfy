/** The two in-memory index shapes the loaders build from rows read in file
    order: a last-write-wins dictionary and an insertion-ordered grouping. */
module Indexes {

  /** `pairs[i]` is the last pair in `pairs` whose key is `k`. */
  ghost predicate IsLastFor<K, V>(pairs: seq<(K, V)>, k: K, i: int) {
    0 <= i < |pairs| && pairs[i].0 == k
    && forall j :: i < j < |pairs| ==> pairs[j].0 != k
  }

  /** The dictionary built by `d[k] = v` for every pair, in order. Each key of
      the input is present and holds the value of its last pair. */
  function LastWins<K, V>(pairs: seq<(K, V)>): (m: map<K, V>)
    ensures forall i :: 0 <= i < |pairs| ==> pairs[i].0 in m
    ensures forall k :: k in m ==> exists i :: IsLastFor(pairs, k, i) && m[k] == pairs[i].1
  {
    if |pairs| == 0 then map[]
    else
      var prefix := pairs[..|pairs| - 1];
      var last := pairs[|pairs| - 1];
      var m := LastWins(prefix)[last.0 := last.1];
      assert IsLastFor(pairs, last.0, |pairs| - 1);
      assert forall k :: k in m && k != last.0 ==>
        exists i :: IsLastFor(pairs, k, i) && m[k] == pairs[i].1 by {
        forall k | k in m && k != last.0
          ensures exists i :: IsLastFor(pairs, k, i) && m[k] == pairs[i].1
        {
          var i :| IsLastFor(prefix, k, i) && LastWins(prefix)[k] == prefix[i].1;
          assert IsLastFor(pairs, k, i);
        }
      }
      m
  }

  /** The values paired with key `k`, in input order. */
  function ValuesFor<K(==), V>(pairs: seq<(K, V)>, k: K): (r: seq<V>)
    ensures |r| <= |pairs|
    ensures forall v :: v in r ==> (k, v) in pairs
  {
    if |pairs| == 0 then []
    else
      var prefix := pairs[..|pairs| - 1];
      var last := pairs[|pairs| - 1];
      assert forall p :: p in prefix ==> p in pairs;
      ValuesFor(prefix, k) + (if last.0 == k then [last.1] else [])
  }

  /** A key that no pair carries has no values. */
  lemma {:induction false} ValuesForAbsent<K, V>(pairs: seq<(K, V)>, k: K)
    requires forall i :: 0 <= i < |pairs| ==> pairs[i].0 != k
    ensures ValuesFor(pairs, k) == []
  {
    if |pairs| > 0 {
      ValuesForAbsent(pairs[..|pairs| - 1], k);
    }
  }

  /** Collecting the values of a key is order-preserving across a split of
      the input. */
  lemma {:induction false} ValuesForConcat<K, V>(a: seq<(K, V)>, b: seq<(K, V)>, k: K)
    ensures ValuesFor(a + b, k) == ValuesFor(a, k) + ValuesFor(b, k)
  {
    if |b| == 0 {
      assert a + b == a;
    } else {
      assert (a + b)[..|a + b| - 1] == a + b[..|b| - 1];
      ValuesForConcat(a, b[..|b| - 1], k);
    }
  }

  /** The result of grouping: the keys as the dictionary lists them, and for
      each key the list of its values. */
  datatype Grouping<K, V> = Grouping(order: seq<K>, groups: map<K, seq<V>>)

  ghost predicate Distinct<K>(s: seq<K>) {
    forall i, j :: 0 <= i < j < |s| ==> s[i] != s[j]
  }

  /** `g` is the grouping of `pairs`: its keys are exactly the keys of the
      pairs, listed once each, and each key's
      group is the list of that key's values in input order. */
  ghost predicate IsGroupingOf<K, V>(pairs: seq<(K, V)>, g: Grouping<K, V>) {
    && Distinct(g.order)
    && (forall k :: k in g.groups ==> k in g.order)
    && (forall i :: 0 <= i < |g.order| ==> g.order[i] in g.groups)
    && (forall i :: 0 <= i < |pairs| ==> pairs[i].0 in g.groups)
    && (forall k :: k in g.groups ==> g.groups[k] == ValuesFor(pairs, k))
    && (forall k :: k in g.groups ==> |g.groups[k]| > 0)
  }

  /** The grouping a dictionary of lists builds when each pair in turn
      opens an empty list for a new key and appends its value to its key's
      list. */
  function Group<K(==), V>(pairs: seq<(K, V)>): (g: Grouping<K, V>)
    ensures IsGroupingOf(pairs, g)
  {
    if |pairs| == 0 then Grouping([], map[])
    else
      var prefix := pairs[..|pairs| - 1];
      var k := pairs[|pairs| - 1].0;
      var v := pairs[|pairs| - 1].1;
      assert prefix + [(k, v)] == pairs;
      var g := Group(prefix);
      var r := if k in g.groups then Grouping(g.order, g.groups[k := g.groups[k] + [v]])
               else Grouping(g.order + [k], g.groups[k := [v]]);
      GroupStep(prefix, k, v, g);
      r
  }

  /** One step of the grouping loop keeps `IsGroupingOf`. */
  lemma GroupStep<K, V>(prefix: seq<(K, V)>, k: K, v: V, g: Grouping<K, V>)
    requires IsGroupingOf(prefix, g)
    ensures IsGroupingOf(prefix + [(k, v)],
      if k in g.groups then Grouping(g.order, g.groups[k := g.groups[k] + [v]])
      else Grouping(g.order + [k], g.groups[k := [v]]))
  {
    var pairs := prefix + [(k, v)];
    assert pairs[..|prefix|] == prefix;
    assert forall x :: ValuesFor(pairs, x) == ValuesFor(prefix, x) + (if k == x then [v] else []);
    if k !in g.groups {
      ValuesForAbsent(prefix, k);
    }
  }

  /** Every key of a grouping is the key of some pair. */
  lemma GroupKeysOfPairs<K, V>(pairs: seq<(K, V)>)
    ensures forall k :: k in Group(pairs).groups ==> exists j :: 0 <= j < |pairs| && pairs[j].0 == k
  {
    var g := Group(pairs);
    forall k | k in g.groups
      ensures exists j :: 0 <= j < |pairs| && pairs[j].0 == k
    {
      assert (k, g.groups[k][0]) in pairs;
    }
  }

  /** The total size of the groups listed in `order`. */
  function SumSizes<K, V>(order: seq<K>, groups: map<K, seq<V>>): nat
    requires forall k :: k in order ==> k in groups
  {
    if |order| == 0 then 0
    else SumSizes(order[..|order| - 1], groups) + |groups[order[|order| - 1]]|
  }

  lemma {:induction false} SumSizesSame<K, V>(order: seq<K>, g1: map<K, seq<V>>, g2: map<K, seq<V>>)
    requires forall k :: k in order ==> k in g1 && k in g2 && |g1[k]| == |g2[k]|
    ensures SumSizes(order, g1) == SumSizes(order, g2)
  {
    if |order| > 0 {
      SumSizesSame(order[..|order| - 1], g1, g2);
    }
  }

  lemma {:induction false} SumSizesGrow<K, V>(order: seq<K>, groups: map<K, seq<V>>, k: K, v: V)
    requires Distinct(order) && k in order
    requires forall x :: x in order ==> x in groups
    ensures SumSizes(order, groups[k := groups[k] + [v]]) == SumSizes(order, groups) + 1
  {
    var g2 := groups[k := groups[k] + [v]];
    var n := |order| - 1;
    if order[n] == k {
      assert forall x :: x in order[..n] ==> x != k;
      SumSizesSame(order[..n], groups, g2);
    } else {
      SumSizesGrow(order[..n], groups, k, v);
    }
  }

  /** Grouping partitions its input: the group sizes add up to the number of
      pairs, so every pair lands in exactly one group. */
  lemma {:induction false} GroupSizes<K, V>(pairs: seq<(K, V)>)
    ensures SumSizes(Group(pairs).order, Group(pairs).groups) == |pairs|
  {
    if |pairs| > 0 {
      var prefix := pairs[..|pairs| - 1];
      var k := pairs[|pairs| - 1].0;
      var v := pairs[|pairs| - 1].1;
      var g := Group(prefix);
      GroupSizes(prefix);
      if k in g.groups {
        SumSizesGrow(g.order, g.groups, k, v);
      } else {
        var g2 := g.groups[k := [v]];
        assert (g.order + [k])[..|g.order|] == g.order;
        SumSizesSame(g.order, g.groups, g2);
      }
    }
  }
}
