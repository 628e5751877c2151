/** Order-preserving filtering and concatenation of sequences. */
module Seqs {
  import opened Wrappers

  /** The elements of `s` that satisfy `p`, in their original order (Python's
      list comprehension with an `if`, or SQL's `WHERE` read in table order). */
  function Filter<T>(p: T -> bool, s: seq<T>): (r: seq<T>)
    ensures |r| <= |s|
    ensures forall x :: x in r ==> p(x) && x in s
    ensures forall x :: x in s && p(x) ==> multiset(r)[x] == multiset(s)[x]
  {
    if |s| == 0 then []
    else
      assert s == [s[0]] + s[1..];
      (if p(s[0]) then [s[0]] else []) + Filter(p, s[1..])
  }

  /** Filtering commutes with concatenation: the kept elements of `a` come
      before the kept elements of `b`, so relative order is preserved. */
  lemma {:induction false} FilterConcat<T>(p: T -> bool, a: seq<T>, b: seq<T>)
    ensures Filter(p, a + b) == Filter(p, a) + Filter(p, b)
  {
    if |a| == 0 {
      assert a + b == b;
    } else {
      assert (a + b)[1..] == a[1..] + b;
      FilterConcat(p, a[1..], b);
    }
  }

  /** Filtering a sequence whose elements all satisfy `p` changes nothing. */
  lemma {:induction false} FilterAll<T>(p: T -> bool, s: seq<T>)
    requires forall i :: 0 <= i < |s| ==> p(s[i])
    ensures Filter(p, s) == s
  {
    if |s| > 0 {
      FilterAll(p, s[1..]);
    }
  }

  /** An element that satisfies `p` is kept. */
  lemma FilterKeeps<T>(p: T -> bool, s: seq<T>, x: T)
    requires x in s && p(x)
    ensures x in Filter(p, s)
  {
    assert multiset(s)[x] > 0;
  }

  /** The concatenation of a sequence of sequences. */
  function Flatten<T>(ss: seq<seq<T>>): (r: seq<T>)
    ensures |ss| == 0 ==> r == []
    ensures forall i :: 0 <= i < |ss| ==> |ss[i]| <= |r|
  {
    if |ss| == 0 then [] else Flatten(ss[..|ss| - 1]) + ss[|ss| - 1]
  }

  lemma FlattenSnoc<T>(ss: seq<seq<T>>, t: seq<T>)
    ensures Flatten(ss + [t]) == Flatten(ss) + t
  {
    assert (ss + [t])[..|ss|] == ss;
  }

  /** Applies `f` to every element in order; the first failure ends the
      traversal (an exception raised inside a Python `for` loop). */
  function MapAll<A, B, E>(f: A -> Result<B, E>, s: seq<A>): (r: Result<seq<B>, E>)
    ensures r.Success? <==> forall i :: 0 <= i < |s| ==> f(s[i]).Success?
    ensures r.Success? ==> |r.value| == |s| && forall i :: 0 <= i < |s| ==> f(s[i]) == Success(r.value[i])
    ensures r.Failure? ==>
      exists i :: 0 <= i < |s| && f(s[i]) == Failure(r.error) && forall j :: 0 <= j < i ==> f(s[j]).Success?
  {
    if |s| == 0 then Success([])
    else
      match f(s[0])
      case Failure(e) => Failure(e)
      case Success(b) =>
        match MapAll(f, s[1..])
        case Failure(e) =>
          assert forall k :: 0 <= k < |s| - 1 ==> s[1..][k] == s[k + 1];
          Failure(e)
        case Success(bs) => Success([b] + bs)
  }

  /** `f` applied to the elements of `s` that satisfy `p`, in order. */
  function FilterMap<T, U>(p: T -> bool, f: T -> U, s: seq<T>): (r: seq<U>)
    ensures |r| <= |s|
    ensures (forall i :: 0 <= i < |s| ==> p(s[i])) ==>
      |r| == |s| && forall i :: 0 <= i < |s| ==> r[i] == f(s[i])
  {
    if |s| == 0 then []
    else (if p(s[0]) then [f(s[0])] else []) + FilterMap(p, f, s[1..])
  }

  /** Every element of the result is the image of a kept element. */
  lemma {:induction false} FilterMapFrom<T, U>(p: T -> bool, f: T -> U, s: seq<T>, k: nat)
    requires k < |FilterMap(p, f, s)|
    ensures exists i :: 0 <= i < |s| && p(s[i]) && FilterMap(p, f, s)[k] == f(s[i])
  {
    var head := if p(s[0]) then [f(s[0])] else [];
    if k >= |head| {
      FilterMapFrom(p, f, s[1..], k - |head|);
      var i :| 0 <= i < |s[1..]| && p(s[1..][i]) && FilterMap(p, f, s[1..])[k - |head|] == f(s[1..][i]);
      assert s[1..][i] == s[i + 1];
    }
  }

  lemma {:induction false} FilterMapConcat<T, U>(p: T -> bool, f: T -> U, a: seq<T>, b: seq<T>)
    ensures FilterMap(p, f, a + b) == FilterMap(p, f, a) + FilterMap(p, f, b)
  {
    if |a| == 0 {
      assert a + b == b;
    } else {
      assert (a + b)[1..] == a[1..] + b;
      FilterMapConcat(p, f, a[1..], b);
    }
  }
}
