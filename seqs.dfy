/** Order-preserving selection from a sequence, and what it keeps. */
module Seqs {

  /** The elements of `s` that satisfy `p`, in their original order (JavaScript's `filter`). */
  function Filter<T>(p: T -> bool, s: seq<T>): (r: seq<T>)
    ensures |r| <= |s|
    ensures forall i :: 0 <= i < |r| ==> r[i] in s && p(r[i])
    ensures forall i :: 0 <= i < |s| && p(s[i]) ==> s[i] in r
    decreases |s|
  {
    if s == [] then []
    else if p(s[0]) then [s[0]] + Filter(p, s[1..])
    else Filter(p, s[1..])
  }

  /** The positions of `s`, counted from `offset`, whose elements satisfy `p`, in increasing order. */
  function Positions<T>(p: T -> bool, s: seq<T>, offset: nat): seq<nat>
    decreases |s|
  {
    if s == [] then []
    else if p(s[0]) then [offset] + Positions(p, s[1..], offset + 1)
    else Positions(p, s[1..], offset + 1)
  }

  predicate StrictlyIncreasing(xs: seq<nat>)
  {
    forall i, j :: 0 <= i < j < |xs| ==> xs[i] < xs[j]
  }

  /** `Filter` keeps its elements in order: the k-th kept element is the element at the k-th
      listed position, and the positions lie within `s`. */
  lemma {:induction false} FilterAtPositions<T>(p: T -> bool, s: seq<T>, offset: nat)
    ensures var pos := Positions(p, s, offset);
            && |pos| == |Filter(p, s)|
            && forall k :: 0 <= k < |pos| ==> offset <= pos[k] < offset + |s| && Filter(p, s)[k] == s[pos[k] - offset]
    decreases |s|
  {
    if s != [] {
      FilterAtPositions(p, s[1..], offset + 1);
    }
  }

  /** The listed positions increase strictly. */
  lemma {:induction false} PositionsIncrease<T>(p: T -> bool, s: seq<T>, offset: nat)
    ensures StrictlyIncreasing(Positions(p, s, offset))
    ensures forall k :: 0 <= k < |Positions(p, s, offset)| ==> offset <= Positions(p, s, offset)[k]
    decreases |s|
  {
    if s != [] {
      PositionsIncrease(p, s[1..], offset + 1);
    }
  }

  /** A position is listed exactly when its element satisfies `p`. */
  lemma {:induction false} PositionsExact<T>(p: T -> bool, s: seq<T>, offset: nat)
    ensures forall i :: offset <= i < offset + |s| ==> (i in Positions(p, s, offset) <==> p(s[i - offset]))
    ensures forall i :: i in Positions(p, s, offset) ==> offset <= i < offset + |s|
    decreases |s|
  {
    if s != [] {
      PositionsExact(p, s[1..], offset + 1);
      assert forall k :: 0 <= k < |s| - 1 ==> s[1..][k] == s[k + 1];
    }
  }

  /** Filtering a concatenation filters each part. */
  lemma {:induction false} FilterAppend<T>(p: T -> bool, a: seq<T>, b: seq<T>)
    ensures Filter(p, a + b) == Filter(p, a) + Filter(p, b)
    decreases |a|
  {
    if a != [] {
      assert (a + b)[0] == a[0];
      assert (a + b)[1..] == a[1..] + b;
      FilterAppend(p, a[1..], b);
    } else {
      assert a + b == b;
    }
  }

  /** An element of either part is an element of the concatenation. */
  lemma InAppend<T>(a: seq<T>, b: seq<T>, x: T)
    requires x in a || x in b
    ensures x in a + b
  {
    if x !in a {
      var k :| 0 <= k < |b| && b[k] == x;
      assert (a + b)[|a| + k] == x;
    }
  }

  /** Nothing is kept from a sequence none of whose elements qualifies. */
  lemma {:induction false} FilterNone<T>(p: T -> bool, s: seq<T>)
    requires forall i :: 0 <= i < |s| ==> !p(s[i])
    ensures Filter(p, s) == []
    decreases |s|
  {
    if s != [] {
      assert forall i :: 0 <= i < |s| - 1 ==> s[1..][i] == s[i + 1];
      FilterNone(p, s[1..]);
    }
  }

  /** `f` applied to every element, the results joined in order (JavaScript's `flatMap`). */
  function FlatMap<T, U>(f: T -> seq<U>, xs: seq<T>): seq<U>
    decreases |xs|
  {
    if xs == [] then [] else FlatMap(f, xs[..|xs| - 1]) + f(xs[|xs| - 1])
  }

  lemma FlatMapSnoc<T, U>(f: T -> seq<U>, xs: seq<T>, x: T)
    ensures FlatMap(f, xs + [x]) == FlatMap(f, xs) + f(x)
  {
    assert (xs + [x])[..|xs|] == xs;
  }

  /** The results for two lists joined are the results for each, in order. */
  lemma {:induction false} FlatMapAppend<T, U>(f: T -> seq<U>, a: seq<T>, b: seq<T>)
    ensures FlatMap(f, a + b) == FlatMap(f, a) + FlatMap(f, b)
    decreases |b|
  {
    if b == [] {
      assert a + b == a;
    } else {
      var b', last := b[..|b| - 1], b[|b| - 1];
      assert b == b' + [last];
      assert a + b == (a + b') + [last];
      FlatMapSnoc(f, a + b', last);
      FlatMapSnoc(f, b', last);
      FlatMapAppend(f, a, b');
      var x, y, z := FlatMap(f, a), FlatMap(f, b'), f(last);
      assert (x + y) + z == x + (y + z);
    }
  }
}
