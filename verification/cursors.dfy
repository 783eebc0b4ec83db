/** The cursor of a set iterator: the index it will yield next, or `None`
    once it is exhausted. A forward cursor `c` over a store holding `S`
    still has `Rest(S, c)` to visit, a backward one `RestBack(S, c)`; the
    iterators of the set yield these in increasing (resp. decreasing)
    order. */
module Cursors {
  import opened Wrappers
  import opened Ordered

  /** The indexes of `S` at or below `hi`. */
  function AtMost(S: set<nat>, hi: nat): set<nat> {
    set x | x in S && x <= hi
  }

  /** What a forward cursor still has to visit. */
  function Rest(S: set<nat>, c: Option<nat>): set<nat> {
    if c.None? then {} else AtLeast(S, c.value)
  }

  /** What a backward cursor still has to visit. */
  function RestBack(S: set<nat>, c: Option<nat>): set<nat> {
    if c.None? then {} else AtMost(S, c.value)
  }

  /** A cursor is `None` or one of the indexes of `S`. */
  predicate OnSet(S: set<nat>, c: Option<nat>) {
    c.Some? ==> c.value in S
  }

  /** The next item of a sequence of items still to come. */
  function Head(xs: seq<nat>): Option<nat> {
    if xs == [] then None else Some(xs[0])
  }

  /** What is left of `xs` once `n` items have been taken (`Iterator::nth`
      takes `n + 1`). */
  function Drop(xs: seq<nat>, n: nat): (r: seq<nat>)
    ensures |r| == if n <= |xs| then |xs| - n else 0
  {
    if n <= |xs| then xs[n..] else []
  }

  /** A forward cursor starts at `first` and so has the whole set to visit. */
  lemma RestFirst(S: set<nat>)
    ensures OnSet(S, First(S)) && Rest(S, First(S)) == S
  {
    if S != {} {
      assert AtLeast(S, Min(S)) == S;
    }
  }

  /** A backward cursor starts at `last`. */
  lemma RestBackLast(S: set<nat>)
    ensures OnSet(S, Last(S)) && RestBack(S, Last(S)) == S
  {
    if S != {} {
      assert AtMost(S, Max(S)) == S;
    }
  }

  /** A forward cursor on `x` yields `x`, then moves to `next_after(x)`,
      which has exactly the rest to visit. */
  lemma RestStep(S: set<nat>, x: nat)
    requires x in S
    ensures OnSet(S, NextAfter(S, x))
    ensures Rest(S, NextAfter(S, x)) == Rest(S, Some(x)) - {x}
    ensures Ascending(Rest(S, Some(x))) == [x] + Ascending(Rest(S, NextAfter(S, x)))
  {
    var nx := NextAfter(S, x);
    if nx.Some? {
      AboveStep(S, x, nx.value);
      assert AtLeast(S, nx.value) == Above(S, x);
    }
    assert Rest(S, nx) == Above(S, x);
    assert AtLeast(S, x) - {x} == Above(S, x);
  }

  /** The mirror step of a backward cursor, moving to `next_before(x)`. */
  lemma RestBackStep(S: set<nat>, x: nat)
    requires x in S
    ensures OnSet(S, NextBefore(S, x))
    ensures RestBack(S, NextBefore(S, x)) == RestBack(S, Some(x)) - {x}
    ensures Descending(RestBack(S, Some(x))) == [x] + Descending(RestBack(S, NextBefore(S, x)))
  {
    var nx := NextBefore(S, x);
    if nx.Some? {
      BelowStep(S, x, nx.value);
      assert AtMost(S, nx.value) == Below(S, x);
    }
    assert RestBack(S, nx) == Below(S, x);
    assert AtMost(S, x) - {x} == Below(S, x);
  }

  /** Removing an index below `e` does not change what lies at or above `e`. */
  lemma AtLeastWithout(T: set<nat>, y: nat, e: nat)
    requires y < e
    ensures AtLeast(T - {y}, e) == AtLeast(T, e)
  {
  }

  /** Removing an index above `e` does not change what lies at or below `e`. */
  lemma AtMostWithout(T: set<nat>, y: nat, e: nat)
    requires e < y
    ensures AtMost(T - {y}, e) == AtMost(T, e)
  {
  }

  /** Position `m` of the ascending enumeration of `T` is an element of `T`,
      and the elements of `T` from it on are exactly the enumeration from
      position `m` on. */
  lemma {:induction false} AscendingSuffix(T: set<nat>, m: nat)
    requires m < |T|
    ensures Ascending(T)[m] in T
    ensures Ascending(AtLeast(T, Ascending(T)[m])) == Ascending(T)[m..]
    decreases m
  {
    var mn := Min(T);
    var T' := T - {mn};
    assert Ascending(T) == [mn] + Ascending(T');
    if m == 0 {
      assert AtLeast(T, mn) == T;
    } else {
      AscendingSuffix(T', m - 1);
      var e := Ascending(T')[m - 1];
      assert Ascending(T)[m] == e;
      assert e in T && mn < e;
      AtLeastWithout(T, mn, e);
      assert Ascending(T)[m..] == Ascending(T')[m - 1..];
    }
  }

  /** The mirror of `AscendingSuffix`. */
  lemma {:induction false} DescendingSuffix(T: set<nat>, m: nat)
    requires m < |T|
    ensures Descending(T)[m] in T
    ensures Descending(AtMost(T, Descending(T)[m])) == Descending(T)[m..]
    decreases m
  {
    var mx := Max(T);
    var T' := T - {mx};
    assert Descending(T) == [mx] + Descending(T');
    if m == 0 {
      assert AtMost(T, mx) == T;
    } else {
      DescendingSuffix(T', m - 1);
      var e := Descending(T')[m - 1];
      assert Descending(T)[m] == e;
      assert e in T && e < mx;
      AtMostWithout(T, mx, e);
      assert Descending(T)[m..] == Descending(T')[m - 1..];
    }
  }

  /** An element at or below every element of `P` comes first in its
      ascending enumeration, followed by the enumeration of the others. */
  lemma AscendingTake(P: set<nat>, y: nat)
    requires y in P && forall x :: x in P ==> y <= x
    ensures Ascending(P) == [y] + Ascending(P - {y})
    ensures Head(Ascending(P)) == Some(y) && Ascending(P - {y}) == Drop(Ascending(P), 1)
  {
    assert Min(P) == y;
  }

  /** Draining one item: appending the head of what is still to come to
      what was collected keeps their concatenation, and leaves less to
      come. */
  lemma DrainStep(out: seq<nat>, xs: seq<nat>, v: nat)
    requires Head(xs) == Some(v)
    ensures (out + [v]) + Drop(xs, 1) == out + xs
    ensures |Drop(xs, 1)| < |xs|
  {
    assert xs == [v] + xs[1..];
  }

  /** The head of what follows a prefix extends the prefix by one item. */
  lemma PrefixStep(xs: seq<nat>, n: nat, v: nat)
    requires n <= |xs| && Head(xs[n..]) == Some(v)
    ensures n < |xs| && xs[..n] + [v] == xs[..n + 1]
  {
    assert xs[n..][0] == xs[n];
  }

  /** Nothing follows a prefix only when it is the whole sequence. */
  lemma PrefixEnd(xs: seq<nat>, n: nat)
    requires n <= |xs| && Head(xs[n..]) == None
    ensures n == |xs|
  {
    assert |xs[n..]| == 0;
  }

  /** A cursor moved with `next_after(x)`, whether or not `x` is in `S`,
      has exactly the elements of `S` above `x` to visit. */
  lemma Advance(S: set<nat>, x: nat)
    ensures OnSet(S, NextAfter(S, x))
    ensures Rest(S, NextAfter(S, x)) == AtLeast(S, x + 1)
    ensures NextAfter(S, x).Some? ==> NextAfter(S, x).value > x
  {
    var nx := NextAfter(S, x);
    if nx.Some? {
      AboveStep(S, x, nx.value);
      assert AtLeast(S, nx.value) == Above(S, x);
    }
    assert AtLeast(S, x + 1) == Above(S, x);
  }

  /** A forward cursor on `x` has `x` as the least index still to visit. */
  lemma RestLeast(S: set<nat>, x: nat)
    requires x in S
    ensures x in Rest(S, Some(x)) && forall y :: y in Rest(S, Some(x)) ==> x <= y
  {
  }
}
