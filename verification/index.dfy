/** The traversal contracts of the index traits (`IndexForward`,
    `IndexBackward`, `IndexOrdered`, `IndexVault`) stated over the sequence a
    traversal yields, and the default `nth_after`/`nth_before` of those
    traits, which step with `next_after`/`next_before`. */
module Index {
  import opened Wrappers
  import opened Ordered

  /** NoDuplicate: no index is yielded a second time. */
  predicate NoDuplicate(xs: seq<nat>) {
    forall i, j :: 0 <= i < j < |xs| ==> xs[i] != xs[j]
  }

  /** NoPhantom: only indexes of the store are yielded. */
  predicate NoPhantom(xs: seq<nat>, S: set<nat>) {
    forall i :: 0 <= i < |xs| ==> xs[i] in S
  }

  /** NoTheft: every index of the store is yielded. */
  predicate NoTheft(xs: seq<nat>, S: set<nat>) {
    forall x :: x in S ==> x in xs
  }

  /** The forward traversal of a store holding `S`: `first`, then
      `next_after` until `None`. */
  function Forward(S: set<nat>): seq<nat> {
    WalkFrom(S, First(S))
  }

  /** The backward traversal of a store holding `S`: `last`, then
      `next_before` until `None`. */
  function Backward(S: set<nat>): seq<nat> {
    WalkBack(S, Last(S))
  }

  /** An ordered vault whose `first`/`next_after`/`last`/`next_before` agree
      with `First`/`NextAfter`/`Last`/`NextBefore` meets every contract of the
      traits: the forward traversal is duplicate-free, phantom-free,
      theft-free and strictly increasing, and the backward traversal is its
      exact reverse. */
  lemma TraversalContracts(S: set<nat>)
    ensures NoDuplicate(Forward(S)) && NoPhantom(Forward(S), S) && NoTheft(Forward(S), S)
    ensures Increasing(Forward(S))
    ensures Backward(S) == Reverse(Forward(S))
  {
    WalkFromFirst(S);
    WalkBackFromLast(S);
    DescendingIsReverse(S);
    AscendingSorted(S);
    var xs := Ascending(S);
    assert forall i :: 0 <= i < |xs| ==> xs[i] in Elems(xs);
    forall x | x in S ensures x in xs {
      assert x in Elems(xs);
    }
  }

  /** The outcome `nth_after(n, c)` must have on a store holding `S`: the
      `n`-th (from 0) index above `c`, or, when there are only `k <= n` of
      them, the `n + 1 - k` steps that could not be taken. */
  function NthAfterSpec(S: set<nat>, n: nat, c: nat): Nth {
    var k := |Above(S, c)|;
    if n < k then Reached(Ascending(Above(S, c))[n]) else Remainder(n + 1 - k)
  }

  /** The mirror of `NthAfterSpec` for `nth_before`. */
  function NthBeforeSpec(S: set<nat>, n: nat, c: nat): Nth {
    var k := |Below(S, c)|;
    if n < k then Reached(Descending(Below(S, c))[n]) else Remainder(n + 1 - k)
  }

  /** The default `nth_after`: `n` calls to `next_after`, failing at step `i`
      with remainder `n - i + 1`, then one last call failing with remainder 1.
      It reaches the `n`-th index above `c` when there is one, and otherwise
      reports a strictly positive remainder. */
  method NthAfter(S: set<nat>, n: nat, c: nat) returns (r: Nth)
    ensures r == NthAfterSpec(S, n, c)
    ensures r.Remainder? ==> r.left > 0
    ensures r.Reached? ==> r.index in S && r.index > c
  {
    ghost var asc := Ascending(Above(S, c));
    var current := c;
    for i := 0 to n
      invariant i <= |asc|
      invariant Ascending(Above(S, current)) == asc[i..]
    {
      var next := NextAfter(S, current);
      if next.None? {
        return Remainder(n - i + 1);
      }
      AscendingAbove(S, current, next.value);
      current := next.value;
    }
    var next := NextAfter(S, current);
    if next.None? {
      return Remainder(1);
    }
    AscendingAbove(S, current, next.value);
    r := Reached(next.value);
    AscendingSorted(Above(S, c));
    assert asc[n] in Elems(asc);
  }

  /** The default `nth_before`, the mirror of `NthAfter` over `next_before`. */
  method NthBefore(S: set<nat>, n: nat, c: nat) returns (r: Nth)
    ensures r == NthBeforeSpec(S, n, c)
    ensures r.Remainder? ==> r.left > 0
    ensures r.Reached? ==> r.index in S && r.index < c
  {
    ghost var desc := Descending(Below(S, c));
    var current := c;
    for i := 0 to n
      invariant i <= |desc|
      invariant Descending(Below(S, current)) == desc[i..]
    {
      var next := NextBefore(S, current);
      if next.None? {
        return Remainder(n - i + 1);
      }
      DescendingBelow(S, current, next.value);
      current := next.value;
    }
    var next := NextBefore(S, current);
    if next.None? {
      return Remainder(1);
    }
    DescendingBelow(S, current, next.value);
    r := Reached(next.value);
    DescendingSorted(Below(S, c));
    assert desc[n] in Elems(desc);
  }

  /** `nth_after(0, c)` is `next_after(c)`, reported with remainder 1 when
      there is no next index, and `nth_after(n + 1, c)` is `nth_after(n, y)`
      where `y = next_after(c)`: skipping ahead equals stepping. */
  lemma {:induction false} NthAfterSteps(S: set<nat>, n: nat, c: nat)
    ensures NthAfterSpec(S, 0, c) == (if NextAfter(S, c).Some? then Reached(NextAfter(S, c).value) else Remainder(1))
    ensures NextAfter(S, c).Some? ==> NthAfterSpec(S, n + 1, c) == NthAfterSpec(S, n, NextAfter(S, c).value)
    ensures NextAfter(S, c).None? ==> NthAfterSpec(S, n, c) == Remainder(n + 1)
  {
    if NextAfter(S, c).Some? {
      var y := NextAfter(S, c).value;
      AscendingAbove(S, c, y);
      AboveStep(S, c, y);
    }
  }
}
